# Focus-tracker server core in Dafny

A Dafny model of three parts of the server of a focus, goal and sleep
tracking application:

- **The JSON-file record store** (`JsonDatabase`). Seven named tables of
  loosely typed records sit in memory with one auto-increment counter per
  table. The whole state is written to a JSON file after every write. A
  prepared-statement facade (`prepare(sql).run/get/all`) interprets a small
  subset of SQL:
  - `INSERT ... (cols) VALUES`;
  - `UPDATE ... SET ... WHERE`;
  - `DELETE ... WHERE`;
  - `SELECT ... WHERE ... ORDER BY ... LIMIT ... OFFSET`.
- **The request validator.** A schema gives rules per field for the body,
  route parameters and query string of a request. `validateField` collects
  the errors of one field in a fixed order. The middleware made by
  `validate(schema)` throws a 400 `ApiError` when any field has an error.
  The stand-alone checks `isStrongPassword`, `isUsername` and
  `isPositiveInteger` are modelled too.
- **Three pure helpers:** `formatDuration`, `paginate` and `sanitize`.

Files:

- `js_values.dfy` (module `JsValues`): the JavaScript values and coercions
  the core relies on: loose `==`, the relational operators, `Number(...)`
  on strings, `String(...)` of a number, `trim` and ASCII `toLowerCase`.
- `js_arrays.dfy` (module `JsArrays`): `filter`, `slice` with its index
  rules, `sort` by a comparator, and a flat-map for loops that push the
  results of a call for each element.
- `database.dfy` (module `Database`):
  - the store's statement interpreter as functions over a `Snapshot`:
    `Write` for `run`, `ReadRows` and `ReadFirst` for `all` and `get`;
  - the class `JsonDatabase`, whose fields `data` and `counters` hold the
    state and whose ghost field `disk` is what the file holds;
  - the classes `Prepared` and `Connection`, the latter for the module-level
    singleton.
- `validator.dfy` (module `Validator`): the error list of a field as a
  function (`FieldErrors`), the imperative `ValidateField` and `Validate`
  proved equal to it, and the application's schemas.
- `helpers.dfy` (module `Helpers`): `FormatDuration`, `Paginate` and
  `Sanitize` with their properties.

How the model reads the source:

- **Statements.** A statement reaches the store already taken apart into
  what the store's regular expressions extract from the SQL text
  (`Statement`):
  - the table name;
  - whether the lower-cased text contains `insert`, `update` or `delete`;
  - the column list;
  - the `SET` clauses;
  - the `AND`-separated conditions;
  - the `ORDER BY` field and direction;
  - the literal `LIMIT` and `OFFSET`.
- **Timestamps.** The current time (`new Date().toISOString()`) is the
  parameter `now`. An update takes one `now` for all its rows, while
  `_parseUpdate` reads the clock again for each matching row
  (backend/server/config/database.js:234). So the rows of one update may
  get different `updatedAt` values in the source, and always get the same
  one in the model.
- **Numbers** are mathematical integers; "## Left out" says where that differs from JavaScript's doubles.

Behaviour of the code worth knowing:

- `LIMIT` is applied before `OFFSET`, and `OFFSET k` then slices
  `[k, k + n)` of the already limited rows (`Database.LimitBeforeOffset`).
- Update and delete always answer `{ changes: 1 }`, however many rows they
  touch.
- `save` swallows write errors.
- `Number(value)` in the `number` type check and in the `min`/`max` checks is
  JavaScript's coercion. An array `[x]` counts as the number `x`, and
  `"12"` passes `type: 'number'`.
- A `SET` clause that is not `f = ?` (such as `updatedAt = CURRENT_TIMESTAMP`)
  still takes a parameter index, so the `WHERE` parameters start one place
  too late. `User.update`, `updatePassword` and `updateLastLogin`
  (backend/server/models/User.js:84-89, 102 and 114;
  backend/server/models/UserHybrid.js:200 and 223) pass exactly one
  parameter per `?`. Their `WHERE id = ?` then compares every id with
  `undefined`, so on the JSON store they change no row, yet answer
  `{ changes: 1 }` (`Database.ShiftedIdUpdateChangesNothing`).

## Model

| member | source | states |
|---|---|---|
| `JsValues.TrimStart` | backend/server/utils/helpers.js:114 | `trimStart` is a suffix of the input that does not start with white space |
| `JsValues.TrimEnd` | backend/server/utils/helpers.js:114 | `trimEnd` is a prefix of the input that does not end with white space |
| `JsValues.Trim` | backend/server/utils/helpers.js:114 | the result of `trim` neither starts nor ends with white space and is no longer than the input |
| `JsValues.TrimStartRemovesWhiteSpace` | backend/server/utils/helpers.js:114 | every character `trimStart` drops is white space |
| `JsValues.TrimEndRemovesWhiteSpace` | backend/server/utils/helpers.js:114 | every character `trimEnd` drops is white space |
| `JsValues.TrimIsInfix` | backend/server/utils/helpers.js:114 | `trim` keeps a contiguous piece of its input, starting at the first non-white-space character |
| `JsValues.TrimOfTrimmed` | backend/server/utils/helpers.js:114 | a string without surrounding white space is its own trim |
| `JsValues.StringToNumberOfNonNumeral` | backend/server/middleware/validator.js:104 | a character that is not white space, a digit or a sign makes `Number(s)` NaN |
| `JsValues.ToLower` | backend/server/config/database.js:165 | `toLowerCase` keeps the length and maps each character through the ASCII case mapping |
| `JsValues.StrLessIrreflexive` | backend/server/config/database.js:132-135 | no string is `<` itself |
| `JsValues.StrLessTransitive` | backend/server/config/database.js:132-135 | string `<` is transitive |
| `JsValues.NatToString` | backend/server/utils/helpers.js:8 | a rendered natural number is a non-empty run of digits that starts with `0` only for 0 |
| `JsValues.DigitsValueOfNatToString` | backend/server/utils/helpers.js:8 | the digits of a rendered number denote that number |
| `JsValues.StringToNumberOfTrimmed` | backend/server/middleware/validator.js:104 | on a string without surrounding white space `Number` is the numeric-literal grammar alone |
| `JsValues.StringToNumberOfDigits` | backend/server/middleware/validator.js:104 | a run of digits reads as its value |
| `JsValues.StringToNumberOfNegatedDigits` | backend/server/middleware/validator.js:104 | a minus sign followed by digits reads as the negated value |
| `JsValues.StringToNumberOfIntToString` | backend/server/config/database.js:167 | `Number(String(n)) == n`: reading back a rendered number gives the number |
| `JsValues.IntToStringInjective` | backend/server/utils/helpers.js:8 | different numbers render differently |
| `JsValues.StringToNumber` | backend/server/middleware/validator.js:104 | defines `Number(s)` on a string: white space trimmed, empty is 0, else an optionally signed digit run or NaN; `StringToNumberOfTrimmed`, `StringToNumberOfDigits`, `StringToNumberOfNegatedDigits`, `StringToNumberOfNonNumeral` and `StringToNumberOfIntToString` prove its properties |
| `JsValues.LooseEq` | backend/server/config/database.js:167 | defines loose `==` on the store's values; `LooseEqSymmetric`, `LooseEqSameType` and `LooseEqNumberAndItsString` prove its properties |
| `JsValues.LessThan` | backend/server/config/database.js:169-180 | defines ECMAScript's IsLessThan: strings lexicographically, otherwise as numbers, undefined when a side is NaN; `ComparisonsOnNumbers` and `UndefinedIncomparable` prove its properties |
| `JsValues.GreaterEq` | backend/server/config/database.js:169-174 | defines `a >= b` as "`a < b` is false, not undefined"; proved by `ComparisonsOnNumbers` and `UndefinedIncomparable` |
| `JsValues.LessEq` | backend/server/config/database.js:175-180 | defines `a <= b` as "`b < a` is false, not undefined"; proved by `ComparisonsOnNumbers` and `UndefinedIncomparable` |
| `JsValues.LooseEqSymmetric` | backend/server/config/database.js:167 | loose `==` is symmetric |
| `JsValues.LooseEqSameType` | backend/server/config/database.js:167 | on two numbers, two strings or two booleans loose `==` is plain equality |
| `JsValues.LooseEqNumberAndItsString` | backend/server/config/database.js:167 | a number is loosely equal to its decimal string, so a numeric id matches `"5"` |
| `JsValues.ComparisonsOnNumbers` | backend/server/config/database.js:169-180 | on numbers `<`, `>`, `<=` and `>=` are the arithmetic comparisons |
| `JsValues.UndefinedIncomparable` | backend/server/config/database.js:169-180 | a missing field (`undefined`) meets no `>=`/`<=` condition and is never ordered before anything |
| `JsArrays.Filter` | backend/server/config/database.js:156 | `filter` keeps exactly the elements with the property, at most as many as there were |
| `JsArrays.FilterConcat` | backend/server/config/database.js:156-183 | filtering keeps the relative order: it distributes over concatenation |
| `JsArrays.FilterAll` | backend/server/utils/helpers.js:114 | a test that every element passes keeps the whole sequence |
| `JsArrays.Slice` | backend/server/config/database.js:141 | `slice` returns elements of the input, never more than it has |
| `JsArrays.SliceNonNegative` | backend/server/config/database.js:149 | with non-negative indices `slice(start, end)` is the window `[start, min(end, len))`, element by element |
| `JsArrays.SlicePrefix` | backend/server/config/database.js:141 | `slice(0, n)` is the prefix of length `min(n, len)` |
| `JsArrays.Insert` | backend/server/config/database.js:132 | inserting one element adds exactly that element |
| `JsArrays.SortBy` | backend/server/config/database.js:132-135 | `sort` returns a permutation of its input |
| `JsArrays.InsertSorted` | backend/server/config/database.js:132-135 | inserting into a sorted sequence by a strict order keeps it sorted |
| `JsArrays.SortBySorted` | backend/server/config/database.js:132-135 | under a comparator that is a strict order on the elements, the result is sorted |
| `JsArrays.SortByNoneBefore` | backend/server/config/database.js:132-135 | when no element must precede another the order is left as it was |
| `JsArrays.FlatMapConcat` | backend/server/middleware/validator.js:45-49 | pushing the results element by element distributes over concatenation of the inputs |
| `JsArrays.FlatMapEmpty` | backend/server/middleware/validator.js:45-49 | the pushed results are empty exactly when each element gave nothing |
| `Database.Assign` | backend/server/config/database.js:230 | `record[f] = v` sets `f` to `v` and leaves every other field alone |
| `Database.EqHolds` | backend/server/config/database.js:160-167 | defines an `f = ?` condition: case-insensitive string equality under `COLLATE NOCASE` with two strings, loose `==` otherwise; `NocaseIgnoresCase` proves its case rule |
| `Database.WhereHolds` | backend/server/config/database.js:155-184 | defines the read `WHERE` test on a record, condition by condition with a running parameter index; `WhereHoldsConcat` and `Where` prove its properties |
| `Database.WhereHoldsConcat` | backend/server/config/database.js:155-184 | `WHERE` is a conjunction checked left to right; `=`, `>=` and `<=` conditions take the next parameter, an unrecognised one takes none and holds |
| `Database.NocaseIgnoresCase` | backend/server/config/database.js:164-166 | with `COLLATE NOCASE` a string equals its lower-cased form |
| `Database.Where` | backend/server/config/database.js:121-125 | the `WHERE` filter returns rows of the table, no more than it had |
| `Database.OrderBy` | backend/server/config/database.js:127-136 | `ORDER BY` only permutes the rows |
| `Database.ReadRows` | backend/server/config/database.js:115-151 | an unknown table reads as `[]`; every row returned is in the table and meets the `WHERE`; `LIMIT n` returns at most `n` rows |
| `Database.ReadFirst` | backend/server/config/database.js:152 | `get` is the first row of the read, `undefined` exactly when the read is empty |
| `Database.ReadFirstWithoutWhere` | backend/server/config/database.js:119-152 | a read with no conditions, order, limit or offset is the whole table, so `get` answers its first row |
| `Database.ReadRowsCount` | backend/server/config/database.js:138-150 | with `m` matching rows, `LIMIT n` and `OFFSET k` a read returns `max(0, min(n, m) - k)` rows |
| `Database.LimitBeforeOffset` | backend/server/config/database.js:138-150 | of three rows, `LIMIT 2 OFFSET 1` returns one row |
| `Database.ReadRowsWindow` | backend/server/config/database.js:119-150 | every read is the contiguous window `[k, min(n, m))` of the matching rows in their `ORDER BY` order (table order without one): `LIMIT n` keeps the first `n` sorted rows, then `OFFSET k` drops `k` of them |
| `Database.Before` | backend/server/config/database.js:132-135 | defines the `ORDER BY` comparator: `a` precedes `b` when its field is `>` (descending) or `<` (ascending); `BeforeStrict` and `ReadRowsSorted` prove its properties |
| `Database.BeforeStrict` | backend/server/config/database.js:132-135 | the `ORDER BY` comparator is a strict order when the sort keys are all numbers or all strings |
| `Database.ReadRowsSorted` | backend/server/config/database.js:127-150 | with such keys the rows of a read come out ordered by the field, ascending or descending |
| `Database.SortedSlice` | backend/server/config/database.js:139-150 | `LIMIT` and `OFFSET` keep a sorted list sorted |
| `Database.PutColumns` | backend/server/config/database.js:193-197 | defines the column loop of an insert: each column with a defined parameter set on the record; `PutColumnsKeeps` and `PutColumnsSets` prove its properties |
| `Database.InsertedRecord` | backend/server/config/database.js:186-200 | defines the inserted record; `InsertedRecordStamps` and `WriteInsert` prove its properties |
| `Database.PutColumnsKeeps` | backend/server/config/database.js:193-197 | a field with no column of that name and a defined parameter keeps its value |
| `Database.PutColumnsSets` | backend/server/config/database.js:193-197 | column `i` with a defined parameter, and no later defined column of the same name, holds `params[i]` |
| `Database.InsertedRecordStamps` | backend/server/config/database.js:186-200 | without a column list the record is `{ id }`; with one it has `id` and `createdAt` unless a defined column overrides them |
| `Database.WriteMatches` | backend/server/config/database.js:211-222 | defines the update and delete `WHERE` test: only `f = ?` conditions count, each loosely equal to the next parameter; `WriteUpdate` and `WriteDelete` prove what it selects |
| `Database.ApplySets` | backend/server/config/database.js:227-232 | defines the `SET` loop: clause `i` sets its field to parameter `i`; `ApplySetsKeeps` and `ApplySetsLastWins` prove its properties |
| `Database.UpdateRow` | backend/server/config/database.js:211-236 | defines the update of one row: a matching row gets its `SET` fields and `updatedAt`, any other is kept; `WriteUpdate` proves its properties |
| `Database.ApplySetsKeeps` | backend/server/config/database.js:227-232 | a field no `SET` clause names keeps its value |
| `Database.ApplySetsLastWins` | backend/server/config/database.js:227-232 | a field takes the parameter of the last `SET` clause naming it, the clause's own index |
| `Database.UpdateRows` | backend/server/config/database.js:211-236 | an update maps the table row by row, so its length is kept |
| `Database.Write` | backend/server/config/database.js:88-113 | `run` keeps the set of tables and counters, never lowers a counter, touches only the named table; an unknown table or a text without `insert`, `update` or `delete` changes nothing and answers `{ lastInsertRowid: 0 }` |
| `Database.WriteInsert` | backend/server/config/database.js:92-98 | an insert takes id = counter + 1, sets the counter to it, keeps every row and appends exactly one record, and answers `{ lastInsertRowid: id }` |
| `Database.WriteUpdateDeleteCounters` | backend/server/config/database.js:100-110 | an update or a delete leaves every counter alone and answers `{ changes: 1 }` |
| `Database.WriteUpdate` | backend/server/config/database.js:202-237 | an update keeps row count and order. A row that fails the `=` conditions (parameters from index `#SET` on) is unchanged. A row that meets them gets `updatedAt` and each `SET` field's parameter, and keeps every other field. Without both `SET` and `WHERE` nothing changes. |
| `Database.WriteDelete` | backend/server/config/database.js:239-254 | a delete leaves the table as `DeleteRows` of it, which keeps exactly the rows that fail some `=` condition and never grows; without `WHERE` nothing changes |
| `Database.ShiftedIdUpdateChangesNothing` | backend/server/config/database.js:211-236 | an update `WHERE id = ?` given no parameter beyond its `SET` clauses leaves every row with a numeric id as it was |
| `Database.DeleteRows` | backend/server/config/database.js:243-253 | defines the rows a delete keeps: those that fail `WriteMatches`; `DeleteRowsConcat`, `DeleteRowsSnoc` and `WriteDelete` prove its properties |
| `Database.DeleteRowsConcat` | backend/server/config/database.js:243-253 | the delete decides row by row, so the survivors keep their order |
| `Database.DeleteRowsSnoc` | backend/server/config/database.js:243-253 | one more row is kept by the delete exactly when it fails its conditions |
| `Database.Replay` | backend/server/config/database.js:88-113 | a series of `run` calls keeps every table with a counter |
| `Database.IssuedIdsIncrease` | backend/server/config/database.js:93 | over any series of calls the ids handed out for a table strictly increase, all exceed the starting counter and none exceeds the final one |
| `Database.ReplayCountersGrow` | backend/server/config/database.js:93 | counters never go down over a series of calls |
| `Database.Fresh` | backend/server/config/database.js:9-26 | a fresh store has the seven tables, all empty, each with a counter at 0 |
| `Database.Loaded` | backend/server/config/database.js:30-44 | defines the state a store opened on a file holds: the fresh tables and counters replaced by the file's `data` and `counters` where present; `Saved` proves it reads back what `save` writes |
| `Database.Saved` | backend/server/config/database.js:30-56 | loading the file `save` writes gives back the saved state |
| `Database.JsonDatabase.constructor` | backend/server/config/database.js:7-28 | a new store holds the fresh tables overlaid by what `load` finds; a missing or unreadable file is replaced by a saved fresh state; afterwards `Valid` holds: every table has a counter and reopening the file gives the current state |
| `Database.JsonDatabase.Load` | backend/server/config/database.js:30-44 | `load` takes `data` and `counters` from the file where present and otherwise saves the current state |
| `Database.JsonDatabase.Save` | backend/server/config/database.js:46-56 | `save` leaves the state alone and the file holds `{ data, counters }` |
| `Database.JsonDatabase.Close` | backend/server/config/database.js:256-258 | `close` saves the state |
| `Database.JsonDatabase.Prepare` | backend/server/config/database.js:59-72 | `prepare` returns a new statement object bound to this store |
| `Database.JsonDatabase.ExecuteWrite` | backend/server/config/database.js:88-113 | `_executeWrite` moves the state and answers as `Write` says, saves exactly when one of the three write branches runs, and keeps `Valid`, so the file always reopens to the current state |
| `Database.JsonDatabase.ExecuteRead` | backend/server/config/database.js:115-153 | `_executeRead` returns the rows `ReadRows` describes |
| `Database.JsonDatabase.ParseInsert` | backend/server/config/database.js:186-200 | the loop over the columns builds the record `InsertedRecord` describes |
| `Database.JsonDatabase.MatchesWhere` | backend/server/config/database.js:213-222 | the walk over the conditions decides as `WriteMatches` with parameters from the given index |
| `Database.JsonDatabase.ApplySetClauses` | backend/server/config/database.js:227-232 | the walk over the `SET` clauses gives the record `ApplySets` describes |
| `Database.JsonDatabase.ParseUpdate` | backend/server/config/database.js:202-237 | `_parseUpdate` replaces the table with its updated rows when `SET` and `WHERE` are present, and otherwise changes nothing |
| `Database.JsonDatabase.ParseDelete` | backend/server/config/database.js:239-254 | `_parseDelete` replaces the table with its surviving rows when `WHERE` is present, and otherwise changes nothing |
| `Database.JsonDatabase.KeepUnmatched` | backend/server/config/database.js:243-253 | the delete filter keeps the rows `DeleteRows` describes |
| `Database.Prepared.Run` | backend/server/config/database.js:62-64 | `run(...params)` is `_executeWrite` of the prepared statement |
| `Database.Prepared.Get` | backend/server/config/database.js:65-67 | `get(...params)` is the first row of the read, or `undefined` |
| `Database.Prepared.All` | backend/server/config/database.js:68-70 | `all(...params)` is the read |
| `Database.Connection.InitDatabase` | backend/server/config/database.js:263-273 | `initDatabase` opens a new store on the file and keeps it |
| `Database.Connection.GetDatabase` | backend/server/config/database.js:275-280 | `getDatabase` returns the kept store and opens one only when there is none |
| `Database.Connection.CloseDatabase` | backend/server/config/database.js:282-288 | `closeDatabase` saves the kept store, if any, and forgets it |
| `Validator.ListNumberViaString` | backend/server/middleware/validator.js:104 | for an array, the structural reading of `Number(value)` is `Number(String(value))` |
| `Validator.HasCharIn` | backend/server/middleware/validator.js:15-17 | `/[lo-hi]/.test(s)` holds exactly when some character lies in the range |
| `Validator.ErrorIf` | backend/server/middleware/validator.js:99-101 | one error for the field exactly when the condition holds, none otherwise |
| `Validator.TypeErrors` | backend/server/middleware/validator.js:95-129 | the type check adds at most one error, and it names the field |
| `Validator.FieldErrors` | backend/server/middleware/validator.js:81-93 | an empty (`undefined`, `null`, `''`) required field gets exactly the one error "is required"; an empty optional field gets none |
| `Validator.FieldErrorsNameTheField` | backend/server/middleware/validator.js:81-168 | every error of a field names that field, and there are at most eight |
| `Validator.EnumAddsOneError` | backend/server/middleware/validator.js:157-160 | an enum rule adds the one error `NotOneOf(values)` exactly when it does not include the value, after the type, length, range and custom errors and before the pattern error; the other errors are those without the rule |
| `Validator.LengthOnlyForStrings` | backend/server/middleware/validator.js:131-138 | `minLength` and `maxLength` never add an error for a value that is not a string |
| `Validator.MinLengthAddsOneError` | backend/server/middleware/validator.js:132-134 | a non-zero `minLength` adds the one error `TooShort(minLength)` right after the type error exactly when the string is shorter; the other errors are those without the bound |
| `Validator.MaxLengthAddsOneError` | backend/server/middleware/validator.js:136-138 | a non-zero `maxLength` adds the one error `TooLong(maxLength)` after the type and `minLength` errors exactly when the string is longer; the other errors are those without the bound |
| `Validator.ValidateField` | backend/server/middleware/validator.js:81-168 | `validateField` returns the errors `FieldErrors` describes, in check order |
| `Validator.CheckType` | backend/server/middleware/validator.js:95-129 | the type switch adds the error `TypeErrors` describes |
| `Validator.CheckLength` | backend/server/middleware/validator.js:131-138 | the length checks add the errors `LengthErrors` describes |
| `Validator.CheckRange` | backend/server/middleware/validator.js:140-147 | the `min`/`max` checks on `Number(value)` add the errors `RangeErrors` describes; NaN meets neither bound |
| `Validator.CheckCustomEnumPattern` | backend/server/middleware/validator.js:149-165 | the custom, enum and pattern checks add the errors `RuleErrors` describes, in that order |
| `Validator.SectionErrorsConcat` | backend/server/middleware/validator.js:45-49 | the errors of a section come field after field, in schema order |
| `Validator.SectionErrorsEmpty` | backend/server/middleware/validator.js:45-49 | a section has no error exactly when none of its fields has one |
| `Validator.Validate` | backend/server/middleware/validator.js:39-75 | the middleware calls `next` when the body, params and query errors (in that order) are empty, and otherwise throws `ApiError(400, "Validation failed", errors)` |
| `Validator.ValidateOptionalSection` | backend/server/middleware/validator.js:44-50 | a section the schema lacks adds nothing |
| `Validator.ValidateSection` | backend/server/middleware/validator.js:45-49 | the loop over a section's fields collects `SectionErrors` |
| `Validator.IsStrongPassword` | backend/server/middleware/validator.js:12-18 | defines `isStrongPassword`: at least 8 characters with an upper-case letter, a lower-case letter and a digit (the ranges through `HasCharIn`); `RegisterPasswordIsStrong` ties it to the registration rules |
| `Validator.IsUsername` | backend/server/middleware/validator.js:20-24 | defines `isUsername`: 3 to 30 characters, each of `[a-zA-Z0-9_]`; `RegisterUsernameIsUsername` ties it to the registration rules |
| `Validator.IsPositiveInteger` | backend/server/middleware/validator.js:26-28 | defines `isPositiveInteger`: a number greater than 0; `FocusDurationIsPositive` ties it to the focus-session rules |
| `Validator.Register` | backend/server/middleware/validator.js:174-197 | defines the registration schema: a required `email` of type email, and the `username` and `password` rules; `RegisterUsernameIsUsername` and `RegisterPasswordIsStrong` prove what its rules accept |
| `Validator.Login` | backend/server/middleware/validator.js:199-204 | defines the login schema: a required string `email` (an e-mail or a user name) and a required string `password` |
| `Validator.FocusSession` | backend/server/middleware/validator.js:206-211 | defines the focus-session schema: an optional `task` string of at most 200 characters and a required `duration` number from 1 to 180; `FocusDurationIsPositive`, `FocusDurationByNumber` and `FocusDurationAcceptsNumerals` prove what it accepts |
| `Validator.DailyGoal` | backend/server/middleware/validator.js:213-221 | defines the daily-goal schema: a required `title` of 1 to 200 characters, an optional `description` (at most 1000), a required `targetDate` of type date, an optional `priority` among `low`, `medium`, `high` and an optional `category` (at most 50) |
| `Validator.RegisterUsernameIsUsername` | backend/server/middleware/validator.js:177-184 | the registration user-name rules accept a string exactly when `isUsername` holds (3 to 30 of `[a-zA-Z0-9_]`) |
| `Validator.RegisterPasswordIsStrong` | backend/server/middleware/validator.js:185-195 | the registration password rules accept a string exactly when `isStrongPassword` holds (8 or more, an upper-case letter, a lower-case letter, a digit) |
| `Validator.FocusDurationIsPositive` | backend/server/middleware/validator.js:209 | a focus-session duration number is accepted exactly when `isPositiveInteger` holds and it is at most 180 |
| `Validator.FocusDurationByNumber` | backend/server/middleware/validator.js:209 | the duration rules see a present value only through `Number(value)` |
| `Validator.FocusDurationAcceptsNumerals` | backend/server/middleware/validator.js:103-107 | a numeric string is checked like the number it denotes |
| `Helpers.Units` | backend/server/utils/helpers.js:11-13 | `hours * 3600 + minutes * 60 + secs == seconds` with minutes and secs below 60 |
| `Helpers.UnitsUnique` | backend/server/utils/helpers.js:11-13 | that decomposition is the only one there is |
| `Helpers.FormatDuration` | backend/server/utils/helpers.js:6-24 | under a minute the text is `"<seconds>s"`; from an hour on it is `"<h>h <m>m"` |
| `Helpers.FormatDurationMinutes` | backend/server/utils/helpers.js:19-23 | between a minute and an hour the text is `"<m>m <s>s"`, or `"<m>m"` on a whole minute |
| `Helpers.FormatDurationDropsSeconds` | backend/server/utils/helpers.js:15-17 | from an hour on the seconds are dropped: rounding down to the minute gives the same text |
| `Helpers.FormatDurationShape` | backend/server/utils/helpers.js:7-23 | below an hour the text has an `m` exactly from a minute on, and ends in `m` exactly on whole minutes |
| `Helpers.FormatDurationInjectiveBelowHour` | backend/server/utils/helpers.js:6-24 | below an hour different durations give different texts |
| `Helpers.TotalPages` | backend/server/utils/helpers.js:141 | with a positive limit `totalPages` is the least `t` with `t * limit >= n`; a zero limit gives NaN for no items and Infinity otherwise |
| `Helpers.Paginate` | backend/server/utils/helpers.js:138-154 | `totalItems`, `currentPage`, `itemsPerPage` as given; `hasPrevPage` iff `page > 1`; `hasNextPage` iff `page < totalPages`; the data are items of the input |
| `Helpers.PaginateDefault` | backend/server/utils/helpers.js:138 | without page and limit the page is 1, the limit 10, there is no previous page, and the data are the first ten items (all of them when there are fewer) |
| `Helpers.PaginateWindow` | backend/server/utils/helpers.js:139-140 | from the first page on the data are `items[(page-1)*limit ..]` cut to `limit` items and to the input |
| `Helpers.PaginateFindsEveryItem` | backend/server/utils/helpers.js:139-141 | every item is on page `i / limit + 1` at place `i % limit`, and that page is within `totalPages` |
| `Helpers.HasNextPageIffMoreItems` | backend/server/utils/helpers.js:141-150 | `hasNextPage` holds exactly when items lie beyond the page |
| `Helpers.RemoveUnsafe` | backend/server/utils/helpers.js:114 | removing `<`, `>`, `'`, `"` keeps exactly the other characters |
| `Helpers.Sanitize` | backend/server/utils/helpers.js:112-115 | an absent or empty input gives `''`; the result has no surrounding white space |
| `Helpers.SanitizeIsSafe` | backend/server/utils/helpers.js:114 | the result has none of `<`, `>`, `'`, `"` and only characters of the input |
| `Helpers.SanitizeFixedPoints` | backend/server/utils/helpers.js:112-115 | `sanitize` leaves a string as it is exactly when it has no unsafe character and no surrounding white space |
| `Helpers.SanitizeIdempotent` | backend/server/utils/helpers.js:112-115 | `sanitize(sanitize(s)) == sanitize(s)` |

## Left out

- The regular expressions that take the SQL text apart are not modelled. `Statement` holds their results, and the conditions a caller puts in `Statement` stand for whatever text the expressions capture. None of these expressions has the `m` or `s` flag, so `.` stops at a line break and `$` matches only at the very end of the text. An update's or delete's `WHERE` text (`/WHERE\s+(.+)/i`, backend/server/config/database.js:204 and 240) runs to the end of its line. A read's `WHERE` text (`/WHERE\s+(.+?)(?:\s+ORDER|\s+LIMIT|$)/i`, backend/server/config/database.js:122) is not found at all when the text goes on past a line break and no `ORDER` or `LIMIT` follows after white space, line breaks included; the read then has no conditions. A read whose `ORDER BY` or `LIMIT` starts on a later line still has its `WHERE`.
- One consequence of that: the SELECTs of backend/server/models/UserHybrid.js:64-67, 96-98 and 119-121 (look-up by id, by e-mail and by user name) are written over several lines and end in a line break, so they reach the store with conditions `None`. Their `get` answers the first row of `users`, whoever it is (`Database.ReadFirstWithoutWhere`).
- A `LIMIT ?` or `OFFSET ?` placeholder is not modelled. The regular expressions accept only literal digits there, so such a clause is simply absent from `Statement`.
- File I/O in `load` and `save` is modelled by the ghost field `disk`: `mkdirSync`, `writeFileSync`, JSON text and its parsing. A failed write is swallowed by `save` and is not modelled. `StoredFile` says whether the file is missing, unreadable or parsed.
- `console` output is left out.
- A record is a value, so the model has no aliasing. In the source, `get`/`all` hand out the stored record objects, and an update mutates them in place.
- Writing `undefined` into a field (a `SET` parameter past the end) is modelled as removing the field. Reading the field gives `undefined` either way, and `JSON.stringify` drops such keys, so the saved file is the same. Until the store is reopened the source's row still has the key, which `'f' in row` or `Object.keys(row)` would see; no caller in the application inspects a row's keys.
- `exec(sql)` and `pragma()` are not modelled. They return the store and do nothing else.
- A table name such as `constructor` or `toString` is not modelled. On a plain object it would find an inherited member instead of a table. Here the store's tables are exactly the keys of `data`.
- `Database.JsonDatabase.constructor`: the loaded file must give every table a counter (`StoreOk`). A hand-edited file with a table but no counter would make a later insert write `NaN` into the counter. That case is not modelled.
- `Database.Connection.InitDatabase`: requires `StoreOk` of the loaded file for the same reason, since it opens a store.
- `Database.Connection.GetDatabase`: when no store is open yet, it requires `StoreOk` of the loaded file for the same reason, since it then opens one.
- `initDatabase`'s path computation and its `try`/`catch` re-throw are left out: the file's contents are a parameter.
- `isEmail` and `isDateString` (a regular expression and `Date` parsing) are not modelled. They are parameters (`Checks`), and so are a schema's `pattern` and `custom` functions.
- Numbers are mathematical integers, not IEEE-754 doubles. The two agree on integers up to 2^53 (9007199254740992) in magnitude. Beyond that a double cannot hold every integer: `++` stops growing at 2^53, and `Number("9007199254740993")` rounds, while `StringToNumber` is exact. So `LooseEq` between a number and a long numeric string can differ from the source there. `String(n)` and `${n}` switch to exponent notation (`1e+21`) from 10^21 on, which `NatToString` and `IntToString` never do. Durations in `FormatDuration` and the bounds in validation messages are rendered that way in the source for such values.
- `Database.IssuedIdsIncrease`: describes the source only while the counter stays below 2^53; from there `++this.counters[table]` (backend/server/config/database.js:93) no longer grows and ids repeat.
- `JsValues.StringToNumberOfIntToString`: describes the source only for integers up to 2^53 in magnitude, the range where every integer is a double and its decimal text reads back exactly.
- `JsValues.NatToString`, `JsValues.IntToString`: describe `String(n)` only below 10^21.
- `Number(...)` reads only an optionally signed run of decimal digits. Fractions, exponents, `Infinity` and hex, octal and binary literals read as NaN in the model. All numbers are integers, so floating-point values, `-0` and `NaN` as a stored value are out.
- Strings are sequences of Unicode characters, not UTF-16 code units. So `length`, `<` on strings beyond the Basic Multilingual Plane, and `toLowerCase` on non-ASCII letters are not modelled.
- Object key order (`Object.entries` of a schema section) is the order of the `Section` sequence.
- Sorting is not modelled for comparators that are inconsistent. The `ORDER BY` comparator never answers 0, so it is inconsistent on equal or incomparable keys, and there the order `Array.prototype.sort` produces is implementation-defined. The model sorts by a stable insertion sort. Sortedness is proved only when the keys are all numbers or all strings.
- `isPositiveInteger`'s `Number.isInteger` test is not modelled. Every number is an integer, so there is no non-integer number to reject.
- `Helpers.Paginate`: it does not model page or limit given as strings or non-integers. The source defaults page and limit one by one; the model takes both as arguments, plus the shortcut `PaginateDefault` for both omitted. `paginate(a, p)` is `Paginate(a, p, 10)` and `paginate(a, undefined, n)` is `Paginate(a, 1, n)`.
- `sanitize` on a non-string truthy value throws (there is no `replace`). That case is not modelled: the input is an optional string.
- `randomString` (randomness), `sleep` (timers) and the date helpers of the same file (clock and time zone) are left out.
