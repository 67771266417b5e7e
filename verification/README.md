# learning_recorder core, modelled in Dafny

`learning_recorder` is a command-line study journal. It keeps one SQLite
table, `learning(learning_date, genre, learning_time, created_at,
updated_at)`, with every column TEXT. The user can add an entry, edit or
delete one picked from a list of recent entries, and print totals. This
project models the logic under that interface:

- `padding.dfy` (module `Padding`) covers the fixed-width helpers `ljust` and `rjust`.
- `answer.dfy` (module `Answer`) covers the check on the typed minutes, including a
  model of JavaScript's `parseInt`, since the check calls it first.
- `display.dfy` (module `Display`) covers the 43-column line that `shapeRows` builds
  for each listed entry.
- `ranking.dfy` (module `Ranking`) covers the order `ORDER BY learning_date DESC`.
  It also covers the listing query (`WHERE learning_date >= threshold ... LIMIT 20`)
  and the fact that the listing is a prefix of the whole order.
- `recorder.dfy` (module `Recorder`) covers the table as a class, `LearningTable`,
  with the rows as a sequence field. It has `Insert`, `UpdateAt(k, ...)` and
  `DeleteAt(k)` for `insertRow`, `updateRow` and `deleteRow`. It also has `ReadRows`
  for the listing that `readRows` shows before an edit or a delete.
- `wrappers.dfy` (module `Wrappers`) holds an `Option` type.

Decisions the model makes explicit:

- **Tie-break.** `ORDER BY learning_date DESC` leaves the order of equal
  dates to SQLite. The model fixes it: on equal dates the smaller rowid
  comes first. The same order is used by the listing query and by the
  `LIMIT 1 OFFSET k` subqueries of the update and the delete. Under it, offset `k`
  in the listing and offset `k` in the subquery name the same row
  (`Ranking.SelectionIsRankedPrefix`).
- **Rowids.** The rowid is a field of `Row`. The table keeps its rows in
  ascending rowid order. A new row gets one more than the largest rowid in use,
  or 1 in an empty table.
- **Text comparison.** Dates are compared as SQLite's BINARY collation
  compares TEXT, character by character. This is the same as comparing
  UTF-8 bytes.
- **Answer check order.** The `parseInt(answer) > 1440` test runs before
  the digits-only test. So `1500abc`, ` 2000` and `0x5A1` are reported as
  exceeding the day, not as a format error.
- **Accepted answers.** The check accepts `0`, and it accepts leading zeros as
  typed (`0070`).
- **Timestamps of a new row.** New rows get `created_at = updated_at =
  learning_date` (the chosen study date), as `insertRow` writes them.

## Model

| member | source | states |
|---|---|---|
| `Padding.Repeat` | src/main.js:331 | `padding.repeat(n)` of a one-character padding has length `n` and holds only that character |
| `Padding.FillChar` | src/main.js:327-328 | the fill character is the first character of the padding, and a space when the padding is absent or empty |
| `Padding.LJust` | src/main.js:326-335 | a string shorter than the width becomes exactly `width` long, starts with the string, and the rest is the fill character (first character of the padding, space when absent or empty); a string that is long enough is returned unchanged |
| `Padding.RJust` | src/main.js:337-346 | a string shorter than the width becomes exactly `width` long, ends with the string, and is preceded only by the fill character; a string that is long enough is returned unchanged |
| `Padding.LJustIdempotent` | src/main.js:326-335 | padding a second time to the same width changes nothing |
| `Padding.RJustIdempotent` | src/main.js:337-346 | padding a second time to the same width changes nothing |
| `Padding.RJustMirrorsLJust` | src/main.js:326-346 | right-justifying equals reversing, left-justifying and reversing back (the two helpers are mirror images) |
| `Answer.LeadingDigitsRun` | src/main.js:143 | `parseInt` stops at the first character that is not a digit of its radix |
| `Answer.ParseInt` | src/main.js:143 | `parseInt` with no radix gives NaN on an empty or all-white-space string and on a string whose first non-white-space character is neither a sign nor a digit |
| `Answer.ParseIntOfDigitsPrefix` | src/main.js:143 | `parseInt` reads a leading run of ASCII digits as its decimal value, ignoring what follows |
| `Answer.ParseIntOfDigits` | src/main.js:143 | on a non-empty run of ASCII digits `parseInt` is the decimal value of the whole run |
| `Answer.ParseIntOfHex` | src/main.js:143 | `parseInt` with no radix reads `0x` followed by hexadecimal digits as a hexadecimal numeral |
| `Answer.LeadingWhiteSpaceSkipped` | src/main.js:143 | leading JavaScript white space does not change what `parseInt` reads |
| `Answer.CheckAnswer` | src/main.js:141-151 | the answer check: an accepted answer is non-empty, only ASCII digits and worth at most 1440 minutes; the empty answer gets the "half-width numbers" error |
| `Answer.AcceptedIff` | src/main.js:141-149 | an answer is accepted exactly when it is non-empty, only ASCII digits, and worth at most 1440 minutes |
| `Answer.DigitsOverDayExceed` | src/main.js:143-144 | a digits-only answer worth more than 1440 gets the "exceeding the time on a day" error, not the format error |
| `Answer.EmptyAnswerRejected` | src/main.js:145-146 | the empty answer gets the "half-width numbers" error |
| `Answer.NonDigitRejected` | src/main.js:145-146 | an answer holding any character other than an ASCII digit is never accepted |
| `Answer.LeadingZeroValue` | src/main.js:145-148 | a leading zero does not change a numeral's value |
| `Answer.LeadingZeroKeepsAcceptance` | src/main.js:145-148 | putting a zero in front of a non-empty answer does not change whether it is accepted |
| `Answer.NumericPrefixExceeds` | src/main.js:143-144 | digits worth more than a day followed by a non-digit get the day error, because the `parseInt` bound is tested first |
| `Answer.HexOverDayExceeds` | src/main.js:143-144 | a hexadecimal `0x...` answer worth more than a day gets the day error |
| `Display.ShapeLine` | src/main.js:77-80 | every display line is at least 43 characters long and ends with " minutes" |
| `Display.ShapeLineColumns` | src/main.js:77-80 | when the date and genre fit in 15 columns and the minutes in 5, the line is exactly 43 characters: date at column 0, genre at column 15, minutes right-aligned to column 35, spaces in between, " minutes" last |
| `Display.ShapeRows` | src/main.js:74-83 | one line per row, in input order, line `k` being the shaped line of row `k` |
| `Ranking.Below` | src/main.js:55-56 | the TEXT order of two dates: a value never sorts before itself, and a proper prefix sorts before the longer value |
| `Ranking.BelowIrreflexive` | src/main.js:55-56 | no TEXT value sorts before itself |
| `Ranking.BelowTransitive` | src/main.js:55-56 | the TEXT order is transitive |
| `Ranking.BelowTotal` | src/main.js:55-56 | two different TEXT values are always ordered one way or the other |
| `Ranking.Precedes` | src/main.js:56 | the listing order: no row precedes itself, and of two rows with the same date the one with the smaller rowid comes first |
| `Ranking.PrecedesTransitive` | src/main.js:56 | the listing order (later date first, then smaller rowid) is transitive |
| `Ranking.PrecedesTotal` | src/main.js:56 | rows with different rowids are always ordered |
| `Ranking.PrecedesDatedNoEarlier` | src/main.js:56 | a row listed before another is dated the same or later |
| `Ranking.InsertSorted` | src/main.js:56 | putting a row into an ordered list adds exactly that row |
| `Ranking.Ranked` | src/main.js:304-305 | the ordered table holds the same rows, as many times each, as the table |
| `Ranking.InsertSortedSorted` | src/main.js:56 | putting a row with a new rowid into an ordered list keeps it ordered |
| `Ranking.RankedSorted` | src/main.js:304-305 | `ORDER BY learning_date DESC` gives an ordered permutation of the table |
| `Ranking.SortedUnique` | src/main.js:304-305 | two ordered lists of the same rows are equal, so offset `k` names one row whatever sort produced the order |
| `Ranking.Since` | src/main.js:55 | the filter keeps exactly the rows dated on or after the threshold |
| `Ranking.SinceKeepsRowidOrder` | src/main.js:55 | the filter keeps the table's rowid order |
| `Ranking.SinceIsRankedPrefix` | src/main.js:54-56 | filtering then ordering gives a prefix of the whole order |
| `Ranking.Selection` | src/main.js:53-56 | the listing query returns at most 20 rows, each a row of the table dated on or after the threshold |
| `Ranking.SelectionIsRankedPrefix` | src/main.js:54-56 | the listing has min(20, n) entries (n = rows dated on or after the threshold), is a prefix of the whole order, and entry `k` is the row that `OFFSET k` names |
| `Ranking.SelectionEmptyIff` | src/main.js:65 | the listing is empty exactly when no row is dated on or after the threshold |
| `Recorder.NextRowid` | src/main.js:285-291 | a new row's rowid is at least 1 and larger than every rowid in use |
| `Recorder.RemoveRowid` | src/main.js:313-315 | `WHERE rowid = id` deletes exactly the rows with that rowid |
| `Recorder.RemoveRowidAt` | src/main.js:313-315 | deleting the rowid of the row at position `i` removes that row only, keeping the others in order |
| `Recorder.RemoveKeepsRowidOrder` | src/main.js:313-315 | deleting keeps the rowid order |
| `Recorder.ReplaceRowid` | src/main.js:301-305 | `UPDATE ... WHERE rowid = id` keeps the row count, replaces exactly the rows with that rowid and leaves every other row unchanged; an update that keeps the rowid keeps every rowid |
| `Recorder.ReplaceRowidAt` | src/main.js:301-305 | updating by the rowid of the row at position `i` changes that row only |
| `Recorder.RankedAfterDelete` | src/main.js:311-318 | after deleting offset `k`, the remaining rows are ranked as before with entry `k` taken out |
| `Recorder.InsertedRowPlacement` | src/main.js:285-291 | a new entry ranks after every entry dated the same or later and before every earlier one |
| `Recorder.InsertedRowListed` | src/main.js:54-56 | a new entry dated on or after the threshold is listed if it ranks among the first 20 |
| `Recorder.LearningTable.constructor` | src/main.js:28-31 | a new table is empty |
| `Recorder.LearningTable.Insert` | src/main.js:281-297 | appends exactly one row with the given date, genre and minutes and `created_at = updated_at = date`, with a rowid above all others; existing rows unchanged |
| `Recorder.LearningTable.UpdateAt` | src/main.js:299-309 | for `k` in range, the row at offset `k` gets the new date, genre, minutes and `updated_at = now`, and keeps its rowid and `created_at`; every other row is unchanged; an out-of-range `k` changes nothing |
| `Recorder.LearningTable.DeleteAt` | src/main.js:311-319 | for `k` in range, exactly the row at offset `k` is removed, the count drops by one, the other rows keep their order and their ranks close up; an out-of-range `k` changes nothing |
| `Recorder.LearningTable.ReadRows` | src/main.js:49-72 | no listing exactly when no row is dated on or after the threshold; otherwise min(20, n) lines, n being the number of rows dated on or after the threshold (so at least one), line `k` being the display line of the row at offset `k` |

## Left out

- SQLite plumbing is not modelled: opening the database, `serialize`, `prepare`/`finalize`, callbacks, and logging of statement errors. A failing statement is not modelled; every statement takes effect.
- The interactive layer is not modelled: `cli-select` menus, `readline`, the cancel path that exits with status 1, and the loop that asks for the minutes again after a rejected answer. `ReadRows` returns `None` where `readRows` exits with status 1.
- `moment` is not part of this model. That leaves out `generateDates`, `convertDateFormat`, and the `Y/M/D` formatting in `shapeRows`. `ReadRows` takes the date formatter as a parameter.
- The clock is not part of this model. The listing threshold `datetime('now', 'localtime', '-7 days')` and the `updated_at` value `datetime('now', 'localtime')` are parameters.
- The totals reports `show`, `countTotalTime`, `showDairy` and `convertInHour` are not modelled. They are SQL aggregates over TEXT columns with SQLite's numeric coercion, plus floating-point rounding and console output.
- `main`'s argument dispatch and the colours and emoji of the output are not modelled.
- Display.ShapeRows: the source also overwrites each driver row object's fields with their padded forms before it builds the line. The model builds the same lines from values and does not rewrite the input rows. Those row objects are not used after the call.
- Recorder.NextRowid: SQLite falls back to a random unused rowid once the largest rowid reaches 2^63 - 1. That fallback is not modelled; rowids are unbounded.
- Ranking.Below: SQLite's type affinity rules are not modelled. All five columns are TEXT, and the model compares them as text.
- A JavaScript string's length counts UTF-16 code units. A Dafny character is a Unicode scalar value. Lengths therefore differ for characters outside the Basic Multilingual Plane. Genres and formatted dates are ASCII.
- Answer.ParseInt: the result is an exact integer. JavaScript rounds a long numeral to a double. That rounding never moves a value across 1440, so the check's outcome is the same.
