# Expense tracker core in Dafny

`script.js` is a single-page expense tracker. It keeps three pieces of page state:
- `categories`, a list of category names;
- `expenses`, a list of records `{id, category, amount, date, description}`;
- `editingExpenseId`, the record the form is editing, if any.

This project models the logic behind its event handlers:

- **Sanitisers** (module `Sanitize`, with text helpers in `Text`):
  - `sanitizeCategoryName` and `sanitizeDescription` trim, truncate to 50 or 200 characters, remove `<` and `>`, and collapse runs of whitespace to one space.
  - `sanitizeAmount` takes the magnitude of the parsed number, caps it at 9,999,999.99 and rounds to cents.
  - `sanitizeDate` accepts a `YYYY-MM-DD` string that names a real calendar date from ten years back to one year ahead of now.
- **Calendar** (module `Calendar`): the part of JavaScript's `Date` the code relies on.
  - A month/day normalisation check and years 0-99 mapping to 1900-1999.
  - Day numbers, which the comparisons of `Date` objects reduce to.
  - The weekday, as `getDay`.
  - `setFullYear`, which rolls 29 February to 1 March.
  - Parsing and printing `YYYY-MM-DD`.
- **Category registry** (module `Categories`):
  - the load at page start (sanitise every stored name, then keep the first occurrence of each non-empty one);
  - `addCategory`, `editCategory` and `deleteCategory` as functions from the registry and the user's answer to an outcome and a new registry.
- **Ledger** (module `Ledger`):
  - the three checks of `saveExpense`, in their order;
  - updating the edited record in place, or appending a new one;
  - `editExpense`'s choice of record;
  - `deleteExpense`'s filter.
- **Period summary** (module `Summary`): which records the daily, weekly (Sunday to Saturday), monthly and total periods select, and the sum of their amounts.
- **Page state** (module `Tracker`): class `Tracker` holds the three variables as fields, with one method per handler.
  - Each state-changing method's new state equals the specification function applied to the old state.
  - `UpdateSummary` is the source's loop, proved to compute `PeriodTotal`.

Amounts are integer cents. The clock, `Date.now()`, `prompt` and `confirm` are parameters.

Where the code and the usual reading of the page differ, the model follows the code:
- A period selector value other than the four options selects nothing, so the total is 0 (`script.js:184-198`).
- `minDate` and `maxDate` keep the current time of day, while the typed date is at midnight. So the day exactly ten years back passes only at midnight, and today a year on always passes (`script.js:46-52`).
- `if (editingExpenseId)` tests truthiness, so a record with id 0 can never be edited: saving appends instead (`script.js:318`).
- A stored category with a leading `<` is not re-trimmed after the brackets go. `"< a"` is stored as `" a"` and becomes `"a"` on the next load (`script.js:5-11`, `73-76`).
  Until then the new category cannot be used: `saveExpense` sanitises the select's value `" a"` to `"a"`, which is not registered, and refuses the expense (`script.js:307-310`).

## Model

| member | source | states |
|---|---|---|
| Text.TrimStart | script.js:5 | the result is a suffix of the input; everything dropped is whitespace; the result does not start with whitespace |
| Text.TrimEnd | script.js:5 | the result is a prefix of the input; everything dropped is whitespace; the result does not end with whitespace |
| Text.Trim | script.js:5 | the result is trimmed and no longer than the input; it is empty iff the input is all whitespace; a trimmed input is unchanged |
| Text.TrimIsSlice | script.js:5 | the trimmed text is one contiguous slice of the input, with only whitespace before and after it |
| Text.Truncate | script.js:8 | the result is the prefix of length min(length, n) |
| Text.StripAngles | script.js:9 | the result has no `<` or `>` and is no longer than the input; it is empty iff the input is all angle brackets; input without brackets is unchanged (with `StripAnglesConcat` and `StripAnglesChar` this fixes the function) |
| Text.StripAnglesConcat | script.js:9 | stripping works piecewise over concatenation, so every character other than `<` and `>`, whitespace included, is kept in place |
| Text.StripAnglesChar | script.js:9 | one character is removed iff it is `<` or `>` |
| Text.CollapseWhitespace | script.js:11 | the result has no two adjacent whitespace characters and every whitespace character is a space; it is empty iff the input is; it is no longer than the input; it adds no brackets (with `CollapseRun` and `CollapseFixpoint` this fixes the function) |
| Text.CollapseRun | script.js:11 | a whitespace run of any length and kind, anywhere in the text, collapses exactly as a single space would |
| Text.CollapseAfterRun | script.js:11 | what follows a whitespace character matters to collapsing only from its first non-whitespace character on |
| Text.CollapseFirst | script.js:11 | collapsing keeps whether the text starts with whitespace |
| Text.CollapseLast | script.js:11 | collapsing keeps whether the text ends with whitespace |
| Text.CollapseFixpoint | script.js:11 | already single-spaced text is unchanged by collapsing |
| Text.VisibleTrim | script.js:5 | trimming keeps every character other than whitespace, `<` and `>`, in order |
| Text.VisibleStripAngles | script.js:9 | removing brackets keeps every character other than whitespace, `<` and `>`, in order |
| Text.VisibleCollapse | script.js:11 | collapsing keeps every character other than whitespace, `<` and `>`, in order |
| Text.TrimPadded | script.js:5 | a space on each side does not change the trimmed text |
| Text.TrimSpaceCons | script.js:5 | a leading space before trimmed text is removed by trimming |
| Text.IsWhitespace | script.js:5-11 | the characters `trim()` removes and `\s` matches: the ECMAScript WhiteSpace and LineTerminator code points |
| Sanitize.SanitizeText | script.js:3-13 | the result has at most `cap` characters, no brackets and single spaces; a non-string or blank input gives "" |
| Sanitize.SanitizeCategoryName | script.js:3-13 | the result has at most 50 characters, no brackets and single spaces; a non-string gives "" |
| Sanitize.SanitizeDescription | script.js:58-70 | the result has at most 200 characters, no brackets and single spaces; a non-string or blank input gives "" |
| Sanitize.SanitizeKeepsVisible | script.js:3-13 | sanitising keeps every character other than whitespace, `<` and `>` of the trimmed, truncated text, in order; when nothing is truncated, those are exactly the input's |
| Sanitize.SanitizeEmptyIff | script.js:5-11 | the result is "" iff the trimmed, truncated text is nothing but angle brackets |
| Sanitize.SanitizeFixpoint | script.js:3-13 | a trimmed, bracket-free, single-spaced name within the cap comes back unchanged |
| Sanitize.SanitizeIgnoresPadding | script.js:5 | surrounding spaces do not change the result |
| Sanitize.SanitizeDependsOnTrim | script.js:5 | inputs that trim to the same text sanitise to the same result |
| Sanitize.SanitizeShortTrimmed | script.js:6-11 | for trimmed non-empty input within the cap, the result is the input with brackets removed and whitespace collapsed |
| Sanitize.SanitizeTrimsName | script.js:3-13 | `" Food "` becomes `"Food"` |
| Sanitize.SanitizeCanLeaveLeadingSpace | script.js:5-11 | `"< a"` becomes `" a"`: removing the bracket after the trim leaves a leading space |
| Sanitize.SanitizeNotIdempotent | script.js:3-13 | `" a"` becomes `"a"`, so sanitising `"< a"` twice differs from sanitising once |
| Sanitize.SanitizeRejectsBrackets | script.js:6-11 | a name of brackets only becomes "" |
| Sanitize.SanitizeJoinsWords | script.js:5-11 | two words (no whitespace, no brackets) separated by any whitespace run within the cap come out joined by exactly one space |
| Sanitize.SanitizeFoodCourt | script.js:3-13 | `"Food  court"` and `"Food\tcourt"` both become `"Food court"` |
| Sanitize.SanitizeAmount | script.js:16-24 | NaN or an infinity gives NaN; any other number gives cents in 0..999999999, within half a cent of min(abs(x), 9999999.99) in cents (`Math.round` of the scaled value) |
| Sanitize.SanitizeAmountPositive | script.js:20-23 | a number passes the `amount <= 0` check iff its magnitude is at least half a cent |
| Sanitize.SanitizeAmountOfCents | script.js:20-23 | a whole number of cents within the cap, of either sign, comes back as its magnitude |
| Sanitize.SanitizeAmountCapped | script.js:22 | a magnitude at or above 9,999,999.99 gives the cap |
| Sanitize.EarliestDate | script.js:47-48 | `minDate` is a real calendar date |
| Sanitize.LatestDate | script.js:49-50 | `maxDate` is a real calendar date |
| Sanitize.SanitizeDate | script.js:27-55 | the result is either null or the input string itself, and an accepted string parses as a date |
| Sanitize.Instant | script.js:52 | the millisecond time value that `<` and `>` on `Date` objects compare: the day number times a day's milliseconds plus the time of day; its meaning is stated by `InstantOrder` |
| Sanitize.InstantOrder | script.js:52 | one instant is earlier than another iff its day number is smaller, or the day numbers are equal and its time of day is earlier |
| Sanitize.SanitizeDateIff | script.js:45-52 | a string is accepted iff it parses and its day is after ten years back (or on that day at midnight) and no later than a year ahead |
| Sanitize.SanitizeDateYears | script.js:45-52 | an accepted date's year lies between this year minus 10 and this year plus 1 |
| Sanitize.SanitizeDateAcceptsToday | script.js:45-54 | today's date in `YYYY-MM-DD` form is accepted |
| Sanitize.SanitizeDateRejectsFarFuture | script.js:49-52 | a date two or more years ahead is refused |
| Sanitize.SanitizeDateRejectsImpossible | script.js:30-43 | 30 February, month 13, year 50 (read as 1950) and an unpadded date are refused |
| Calendar.DaysInMonth | script.js:35-41 | months have 28 to 31 days, and 29 exactly for February of a leap year |
| Calendar.NextDay | script.js:188-190 | the following day is a real date that comes after |
| Calendar.DaysBeforeNextYear | script.js:185-192 | day numbers of consecutive years differ by the year's length |
| Calendar.DayNumberNextDay | script.js:188-190 | the following day has the next day number |
| Calendar.DayNumber | script.js:179-192 | the day part of the time value that `new Date(y, m - 1, d)` gives at midnight; its meaning is stated by `DayNumberNextDay`, `DayNumberMonotonic` and `DayNumberInjective` |
| Calendar.DayNumberMonotonic | script.js:52 | an earlier date has a smaller day number, so `<` on dates is calendar order |
| Calendar.DayNumberInjective | script.js:185 | two real dates with the same day number are the same date, so equal `getTime` means the same day |
| Calendar.Weekday | script.js:188 | `getDay` is 0..6 |
| Calendar.WeekdayNextDay | script.js:188 | the weekday advances by one, modulo 7, from one day to the next |
| Calendar.WeekdayAnchors | script.js:188 | 1 January 1970 is a Thursday and 9 June 2024 a Sunday |
| Calendar.ShiftYears | script.js:48-50 | `setFullYear` moves the year by k and keeps month and day, except that 29 February rolls to 1 March |
| Calendar.IsDateShape | script.js:31-32 | the regular expression `^\d{4}-\d{2}-\d{2}$`: ten characters, digits at positions 0-3, 5-6 and 8-9, `-` at 4 and 7 |
| Calendar.DateFields | script.js:34 | `split('-').map(Number)` on such a string: the decimal values of the three digit groups |
| Calendar.SurvivesJsDate | script.js:35-43 | `new Date(year, month - 1, day)` gives back the same fields iff the date is real and the year is at least 100 (JavaScript reads years 0..99 as 1900..1999) |
| Calendar.ParseDate | script.js:31-43 | a parsed string has the `YYYY-MM-DD` shape and names a real date in years 100..9999 |
| Calendar.FormatDate | script.js:31 | a printed date has the `YYYY-MM-DD` shape |
| Calendar.ParseFormat | script.js:31-43 | parsing a printed date gives the date back |
| Calendar.FormatParse | script.js:31-43 | printing a parsed date gives the string back |
| Calendar.MonthPrefix | script.js:193-195 | two printed dates share `YYYY-MM` iff month and year agree |
| Categories.IndexOf | script.js:75 | `indexOf` is -1 iff the name is absent, else the first position holding it |
| Categories.FirstOccurrences | script.js:75 | the filter keeps distinct names; a name is kept iff it is non-empty and occurs; kept names stay in order of first occurrence |
| Categories.FirstOccurrencesOfDistinct | script.js:75 | a list of distinct non-empty names passes the filter unchanged |
| Categories.SanitizeAll | script.js:75 | the map sanitises every element |
| Categories.KeptAt | script.js:75 | the filter's test at position `i`: the name is non-empty and `indexOf` finds it first at `i` |
| Categories.LoadCategories | script.js:73-76 | the loaded registry has distinct non-empty names; absent or non-array storage gives []; a name is loaded iff some stored entry sanitises to it; loaded names keep the order of their first stored occurrence |
| Categories.ReloadTrimmedRegistry | script.js:73-76 | storing and reloading a registry of trimmed names gives it back |
| Categories.Stored | script.js:73-76 | `JSON.stringify(categories)` as the load reads it back: one JSON string per name, in the same order |
| Categories.ReloadRenamesSpacedName | script.js:73-76 | a stored `" a"` (what `"< a"` is saved as) loads as `"a"` |
| Categories.LoadOne | script.js:73-76 | one stored entry loads as its sanitised name, or nothing when that is blank |
| Categories.Add | script.js:285-294 | a cancel changes nothing; an invalid or duplicate name is refused; otherwise the sanitised name is appended; the registry stays distinct and non-empty |
| Categories.AddTwice | script.js:288-291 | adding the same answer twice leaves the registry as after the first |
| Categories.AddFood | script.js:285-291 | adding `Food` to an empty registry gives `[Food]` |
| Categories.AddFoodTwice | script.js:288-290 | `Food` and ` Food ` are both duplicates of `Food` |
| Categories.Edit | script.js:126-138 | a cancel, an invalid name, the same name or another existing name leave the registry unchanged; otherwise only the entry at `index` becomes the new name; the registry stays distinct |
| Categories.Delete | script.js:141-147 | unless confirmed and in range nothing changes; otherwise exactly the entry at `index` is removed and the rest keep their order |
| Categories.RemoveAtMembers | script.js:143 | after the splice, the names left are the other names |
| Categories.RemoveAtRegistry | script.js:143 | the splice keeps the registry distinct and non-empty |
| Ledger.Validate | script.js:297-316 | the three checks of `saveExpense` in their order, returning the refusal or the sanitised fields; its meaning is stated by `ValidateOutcomes` |
| Ledger.ValidateOutcomes | script.js:297-316 | category, amount and date are refused exactly when each is the first check to fail; an accepted form has a registered category, 1..999999999 cents, the date as typed and a sanitised description |
| Ledger.IndexOfId | script.js:319 | `findIndex` is -1 iff no record has the id, else the first such position |
| Ledger.Update | script.js:319-322 | the first record with the id gets the new fields and keeps its id; all others are unchanged |
| Ledger.Record | script.js:321-333 | the record the save writes: the given id with the validated fields; its meaning is stated by `SaveOutcomes` and `Update` |
| Ledger.Remove | script.js:278 | no record with the id is left; with no such record nothing changes |
| Ledger.RemoveMembers | script.js:278 | a record stays iff it was there and has another id |
| Ledger.RemoveConcat | script.js:278 | the filter works piecewise, so the order is kept |
| Ledger.RemoveUnique | script.js:278 | with unique ids, deleting a record's id removes exactly that record |
| Ledger.SaveKeepsUniqueIds | script.js:318-335 | an update, or an append under an unused id, keeps ids unique |
| Ledger.StartEdit | script.js:261-273 | editing starts on the id iff a record has it; otherwise the marker stays as it was |
| Ledger.IsEditing | script.js:318 | `if (editingExpenseId)`: the marker counts as editing iff it holds an id other than 0 (null and 0 are falsy) |
| Ledger.Save | script.js:297-335 | `saveExpense` on the ledger and the edit marker; its meaning is stated by `SaveOutcomes` |
| Ledger.SaveOutcomes | script.js:297-341 | a refusal changes nothing; when not editing, the record is appended under the fresh id; when editing, the edited record alone is rewritten (if still there) and editing ends |
| Ledger.SaveUnique | script.js:318-335 | for every ledger: if its ids are unique and the fresh id is unused, they are still unique after saving |
| Ledger.EditThenSave | script.js:261-325 | choosing a record and then saving an accepted form rewrites that record and no other, and ends editing |
| Summary.ResolveTarget | script.js:170-174 | an empty picker means today; a non-empty picker gives a target iff it parses as a date, and then the target is that date (years 100..9999), whose printed form is the picker's text |
| Summary.Includes | script.js:182-198 | the period test for one record: daily is the same day, weekly the Sunday-to-Saturday window of the target, monthly the same month and year, total every record, any other value none; its meaning is stated by `DailyIffSameDate`, `WeeklyIffSameWeek`, `MonthlyIffSameMonthText` and `TotalIsSum` |
| Summary.PeriodTotal | script.js:176-203 | the value of `total` after the `forEach` has seen the records; its meaning is stated by `PeriodTotalStep`, `PeriodTotalConcat` and `TotalIsSum` |
| Summary.PeriodTotalStep | script.js:178-203 | one more iteration adds the record's amount iff it is selected |
| Summary.Share | script.js:200-202 | `if (include) total += expense.amount`: what one record adds; `PeriodTotalStep` and `TotalIsSum` state its role |
| Summary.PeriodTotalConcat | script.js:178-203 | the total over two runs of records is the sum of their totals |
| Summary.TotalIsSum | script.js:196-197 | the `total` period sums every amount |
| Summary.NarrowerTotal | script.js:178-203 | a period that selects fewer records never has a larger total, for non-negative amounts |
| Summary.WithinTotal | script.js:196-201 | no period exceeds the total period |
| Summary.DailyWithinWeekAndMonth | script.js:184-195 | a day's total is at most its week's and its month's |
| Summary.DailyIffSameDate | script.js:184-185 | the daily period selects exactly the records whose date text is the target's |
| Summary.MonthlyIffSameMonthText | script.js:193-195 | the monthly period selects exactly the records whose date text starts with the target's `YYYY-MM` |
| Summary.WeekStartIsSunday | script.js:187-188 | the week starts on a Sunday |
| Summary.WeekStart | script.js:187-188 | `startOfWeek` from `setDate(getDate() - getDay())` as a day number; `WeekStartIsSunday` and `WeekOfJune12` state what it is |
| Summary.WeeklyIffSameWeek | script.js:186-192 | the weekly period selects exactly the records in the same Sunday-to-Saturday week as the target |
| Summary.WeekOfJune12 | script.js:186-192 | the week of 12 June 2024 runs from the 9th to the 15th |
| Summary.WeeklyExample | script.js:186-201 | for the week of 12 June 2024, a record of the 10th counts and one of the 16th does not |
| Summary.MonthlyExample | script.js:193-201 | for June 2024, a record of 1 June counts and one of 1 July does not |
| Summary.RemoveLowersTotal | script.js:278 | deleting records never raises any period's total |
| Summary.ReplaceChangesOneShare | script.js:321 | replacing one record changes a total only by that record's old and new shares |
| Summary.UpdateTotal | script.js:318-325 | an edit changes each total only by the edited record's old and new shares |
| Tracker.Tracker.Load | script.js:73-78 | the registry is the loaded, deduplicated one; the ledger is what was stored, or empty; nothing is being edited |
| Tracker.Tracker.AddCategory | script.js:285-294 | the outcome and new registry are those of `Add`; the ledger and edit marker are unchanged; the registry stays valid |
| Tracker.Tracker.EditCategory | script.js:126-138 | the outcome and new registry are those of `Edit`; the rest is unchanged; the registry stays valid |
| Tracker.Tracker.DeleteCategory | script.js:141-147 | the new registry is that of `Delete`; the rest is unchanged; the registry stays valid |
| Tracker.Tracker.EditExpense | script.js:261-273 | the edit marker becomes the `StartEdit` choice; the registry and ledger are unchanged |
| Tracker.Tracker.DeleteExpense | script.js:276-282 | when confirmed, every record with the id is removed; otherwise nothing changes |
| Tracker.Tracker.SaveExpense | script.js:297-341 | outcome, ledger and edit marker are those of `Save`; the registry is unchanged; ids stay unique when the fresh id is unused |
| Tracker.Tracker.UpdateSummary | script.js:166-203 | the loop returns the sum of the amounts of the records the period selects for the resolved target |
| Tracker.SpacedNameUnusableUntilReload | script.js:5-11 | `addCategory` on `"< a"` registers `" a"`; a save with the select's value `" a"` is refused for its category, since it sanitises to the unregistered `"a"`; after a reload the registry is `["a"]` and the category check passes |
| Tracker.CategoryCheck | script.js:307-310 | a save is refused for its category iff the sanitised select value is empty or not registered |

## Left out

- Rendering and the DOM (`renderCategories`, `renderExpenses`, the date picker's visibility at `script.js:159-164`, `toFixed` formatting, form reset and button labels) are not modelled: they only display state.
- `localStorage` and `JSON` are not modelled. Stored categories come in as an optional list of JSON values, and stored expenses as an optional list of well-formed records. Malformed or extra fields in stored records are not modelled.
- `prompt`, `confirm` and `alert` are not modelled. The user's answers are parameters, and an alert is an outcome value.
- `new Date()` and `Date.now()` are parameters: a `Clock` (today and the milliseconds since midnight), `today`, and `freshId`.
- Time zones and daylight-saving transitions are not modelled: every day is 86,400,000 ms long.
- SanitizeAmount: `parseFloat` is abstracted to an optional exact real; the model does not capture floating-point rounding of `amount * 100`. Amounts are exact integer cents, and the summary's floating `total +=` is an exact integer sum.
- Lengths count characters, not UTF-16 code units. The regex `\s` is modelled as a fixed set of whitespace characters.
- Summary.Includes: a record or target date that is not a valid `YYYY-MM-DD` matches no dated period. The source instead lets `new Date` roll it over (e.g. `2024-02-30` becomes 1 March), which is not modelled.
- Summary.ResolveTarget: a picker year from 0001 to 0099 gives no target, so no dated period selects anything. A date input can hold such a value, and `script.js:172-173` reads it as 1901 to 1999 (`0050-06-15` becomes 15 June 1950); that reading is not modelled.
- Tracker.Tracker.EditCategory: requires `index < |categories|`. The page only calls it with indices of existing entries, so the `categories[index] || ''` fallback is not modelled.
- The event-listener wiring and the start-up calls at `script.js:343-392` are not modelled: they only connect handlers to the page.
