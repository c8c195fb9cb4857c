# Collaborator roster: verified model

A model of the data core of a small desktop application. The application
keeps a roster of collaborators in one database table. It can register a
collaborator, mark one as away (*afastado*), record a dismissal time
(*dispensa*), show the roster in a fixed order, and copy a text summary of
the collaborators who are not away to the clipboard.

The model is split by concern:

- `collaborators.dfy` (module `Collaborators`): the `users` table row
  (`id`, `name`, `dataCreated`, `afastado`, `dataDispensa`). It also holds
  the table's integrity rules (positive, increasing primary keys and unique
  names), the key SQLite assigns to a new row, and lookup by primary key.
- `roster.dfy` (module `RosterStore`): the class `Roster`, holding the table
  as a sequence of rows. It has one method per operation the screens
  perform: insert, register (with the empty-name guard), set the away flag,
  record a dismissal, load the display list, and build the clipboard text
  with the same `text +=` loop the application runs. Two client methods
  follow the class and show what callers can conclude from the contracts.
- `display_order.dfy` (module `DisplayOrder`): the list screen's
  `ORDER BY afastado ASC, dataDispensa ASC NULLS FIRST`. It is stated as a
  relation: the result is a permutation of the table, sorted by the
  two-level key. An insertion sort meets the relation. Any two results have
  the same key at every position, so re-sorting changes nothing but the
  order of ties.
- `report.dfy` (module `ClipboardReport`): the clipboard text as a pure
  function `Report`. It is the header `*DISPENSA ATUALIZADA* DD/MM/YYYY`,
  a blank line, then `*i* - _name_` for each record that is not away, in
  table order, numbered from 1.
- `decimal.dfy` (module `Decimal`): decimal rendering of numbers as
  `str(int)` does it, and zero padding as the `%d`, `%m` and `%Y` fields of
  `strftime` do it. A digit parser reads the results back.

Clocks become parameters. `now` is the `Timestamp` (an integer tick count)
of an insert or a dismissal. `today` is the `Date` printed in the report.

The list screen sorts in an SQL `ORDER BY`, which promises nothing about
rows with equal keys. So the model specifies only the key sequence of the
result and leaves the order of ties open; it promises no stable order.

The rows are values addressed by their primary key. The application instead
hands the ORM object itself to `set_afastado` and `marcar_dispensa`. The
session's identity map keeps one object per key, so the two agree. Because
the methods take a key, they also model an unknown key (`NotFound`), a case
the application cannot reach.

## Model

| member | source | states |
|---|---|---|
| Collaborators.NextId | main.py:28 | the key of a new row is positive and larger than every key in the table (SQLite's rule for an integer primary key: one more than the largest key) |
| Collaborators.Find | main.py:28 | lookup by primary key: a position it returns holds that key; when it returns nothing, no row has that key |
| Collaborators.FindUnique | main.py:28 | in a table with increasing keys, a key present at position i is found exactly at i |
| RosterStore.Roster.constructor | main.py:36 | the table starts empty and well formed |
| RosterStore.Roster.Add | main.py:43-46 | a name already present fails with DuplicateName and leaves the table unchanged; otherwise exactly one row is appended, with a fresh key, that name, `dataCreated = now`, `afastado = false` and `dataDispensa = null`, and every earlier row is kept; the integrity rules are preserved |
| RosterStore.Roster.Register | main.py:170-177 | an empty name adds nothing (EmptyName); any other name behaves exactly as Add |
| RosterStore.Roster.SetAway | main.py:252-254 | the row with the key gets `afastado = value`; none of its other fields and no other row change; unknown key: NotFound and no change |
| RosterStore.Roster.MarkDismissal | main.py:259-261 | the row with the key gets `dataDispensa = now`, overwriting any earlier value; `afastado`, its other fields and every other row are untouched; unknown key: NotFound and no change |
| RosterStore.Roster.LoadDisplayList | main.py:228 | the list shown is a permutation of every row, sorted by the two-level display key |
| RosterStore.Roster.CopyToClipboard | main.py:264-269 | the loop that appends one line per active record produces exactly `Report` of the table |
| RosterStore.DismissTwice | main.py:259-261 | two dismissals of the same row leave the table as a single dismissal at the second time would: no history is kept |
| RosterStore.MarkAwayAndReload | main.py:252-257 | after the away box is ticked and the list reloaded, that row is away and listed after every active row, whatever its dismissal time |
| DisplayOrder.KeyLeTotalOrder | main.py:228 | the display key order (false before true, then null before a date, then earlier dates first) is reflexive, total, antisymmetric and transitive |
| DisplayOrder.ActiveBeforeAway | main.py:228 | in a sorted list every record with `afastado = false` comes before every record with `afastado = true` |
| DisplayOrder.DismissalOrderWithinFlag | main.py:228 | among records with the same flag, a null dismissal comes before any date, and dates are ascending |
| DisplayOrder.Insert | main.py:228 | inserting into a list adds exactly that record (multiset) |
| DisplayOrder.InsertSorted | main.py:228 | inserting into a sorted list keeps it sorted |
| DisplayOrder.OrderForDisplay | main.py:228 | there is always a display order: the insertion sort returns a sorted permutation of its input |
| DisplayOrder.OrderForDisplayFixesSorted | main.py:228 | a table that is already in display order is returned unchanged |
| DisplayOrder.KeysOfPermutation | main.py:228 | permuting records permutes their sort keys |
| DisplayOrder.SortedKeysUnique | main.py:228 | two sorted key sequences with the same elements are equal |
| DisplayOrder.DisplayOrderKeysUnique | main.py:228 | any two display orders of the same table have equal keys at every position, so they differ only in the order of ties |
| DisplayOrder.DisplayOrderIdempotent | main.py:228 | sorting a display order again yields a display order of the original table with the same key at every position |
| DisplayOrder.ThreeRecordOrder | main.py:228 | an active record without a date A, an away record B and an active dated record C have the single display order [A, C, B] |
| Decimal.Digits | main.py:269 | the rendering of a number is a non-empty digit string without a leading zero (unless the number is 0) |
| Decimal.ValueOfDigits | main.py:269 | reading back the decimal rendering of n gives n |
| Decimal.DigitsInjective | main.py:269 | different numbers get different renderings |
| Decimal.ZeroPadValue | main.py:266 | a padded field is a digit string of length max(width, digits of n) that reads back as n |
| Decimal.DigitsLength | main.py:266 | a number below 10^k renders in at most k digits, so padding a day or month to 2 and a year to 4 gives fields of exactly that width |
| Decimal.ValueIgnoresLeadingZeros | main.py:266 | leading zeros added by padding do not change the value read back |
| ClipboardReport.DateTextRoundTrip | main.py:266 | for a calendar date the text is ten characters `DD/MM/YYYY` whose three digit fields read back as the day, month and year |
| ClipboardReport.DateTextExample | main.py:266 | 10 May 2024 prints as `10/05/2024` |
| ClipboardReport.ActiveMembers | main.py:265 | the filtered rows are exactly the rows with `afastado = false`, and there are no more of them than rows |
| ClipboardReport.ActiveConcat | main.py:265 | the filter distributes over concatenation, so it keeps table order |
| ClipboardReport.ActiveSnoc | main.py:265 | an active row appended to the table is appended to the filtered rows |
| ClipboardReport.ActiveIdempotent | main.py:265 | filtering the filtered rows again changes nothing |
| ClipboardReport.LinesSnoc | main.py:268-269 | appending a record to the listed rows appends one line, numbered one past the previous last |
| ClipboardReport.ListingStep | main.py:268-269 | one pass of the `text +=` loop over row i adds exactly the line numbered i + 1 |
| ClipboardReport.ReportAppend | main.py:264-269 | an active row added to the table adds one line at the end of the report, numbered after the existing lines: lines follow table order with numbers 1..n (an away row adds nothing, by ReportIgnoresAway) |
| ClipboardReport.ReportOnlyActive | main.py:265-269 | the report of the table equals the report of its active rows: away records never appear |
| ClipboardReport.ReportIgnoresAway | main.py:265-269 | inserting an away row anywhere in the table leaves the report unchanged |
| ClipboardReport.DigitsExample | main.py:269 | 10, 5 and 2024 render as `10`, `5` and `2024` |
| ClipboardReport.HeaderTextExample | main.py:266-267 | the title followed by `10/05/2024` and the blank line is `*DISPENSA ATUALIZADA* 10/05/2024\n\n` |
| ClipboardReport.LinesExample | main.py:268-269 | two rows named Ana and Bea give the lines `*1* - _Ana_\n*2* - _Bea_\n` |
| ClipboardReport.ReportExample | main.py:264-269 | two active rows Ana and Bea on 10 May 2024 give exactly `*DISPENSA ATUALIZADA* 10/05/2024\n\n*1* - _Ana_\n*2* - _Bea_\n` |

## Left out

- The widgets, layouts, background image, theming and screen navigation (main.py:49-114, 118-167, 184-218, 273-287): presentation only.
- The database engine and the ORM session (main.py:21-40): the table is an in-memory sequence, and every successful operation counts as committed. `create_all` (main.py:34-36) keeps an existing database file, so only the first launch starts from an empty table; a relaunch starts from the stored rows. The constructor models the first launch, and every method accepts any stored table that meets the integrity rules, since each requires only `Valid()`.
- The ORM session after a failed insert: the application does not roll the session back after the unique constraint fails. The model leaves the table unchanged and does not model the session needing a rollback before its next use. The `IntegrityError` raised by `session.commit()` (main.py:46) is not caught in `registrar_colaborador` (main.py:173), so the print and the clearing of the field do not run and the exception leaves the button callback; the model turns that uncaught exception into the result `Err(DuplicateName)`.
- `Clipboard.copy` and the `print` logging (main.py:174, 177, 270-271): operating-system and console side effects. The model returns the text that would be copied.
- `datetime.now()` and `datetime.utcnow` (main.py:30, 260, 266): the clock is passed in. The model does not capture that creation times are UTC while dismissal times are local.
- The rebuild of the list widgets and the checkbox and button callbacks (main.py:225-250, 257, 262): presentation. The model keeps only the ordering rule of the query.
- The `String(80)` length of `name` (main.py:29): SQLite does not enforce it.
- The row order of the report's query, which has no `ORDER BY` (main.py:265): the model takes the table's insertion order, the order SQLite's table scan gives. SQL itself does not promise it.
- A null `afastado` value: the column allows null, but every row is inserted through the ORM with the default `False`. The model makes the flag a plain boolean.
- ClipboardReport.DateText: pads the year to four digits, as `%Y` does on most platforms; on glibc, years below 1000 are printed without padding. `datetime.now()` never produces such a year.
