# access-tools widgets in Dafny

A model of the logic inside four browser widgets, with proofs about it:

- **The calculator** (`calculator.js`) covers:
  - the syntax pass `validate`, which marks one-character error spans and keeps the first message;
  - the buffer actions reset, appendNumber with its leading-zero cleanup, appendDot, backspace, insertOp and toggleParen;
  - `sanitizeForEval` and the control flow of `evaluate`;
  - the highlighting in `renderDisplay`, which sorts the ranges, merges overlaps and escapes HTML;
  - `findDivisionByZeroRanges`.
- **The month calendar** (`calendar.js`) covers:
  - the day-of-week formula `dow`, `daysInMonth`, `monthName` and the `toISO` cell key;
  - the 42-cell grid with its spill into the previous and next months;
  - previous/next month navigation and `applySelection`.
- **The Philippine holiday table** (`ph-holidays.js`) covers:
  - `pad`/`iso`;
  - the anonymous Gregorian Easter algorithm;
  - `addDays` and `lastMonday`, both over the `Date.UTC` calendar;
  - the map built by `phHolidayMap`, whose later `set` calls overwrite earlier ones;
  - the lookup `phHolidayNameForISO`.
- **The end-of-day checklist** (`eod.js`) covers:
  - loading the 15 default rows;
  - rendering, including the reset that unticks empty rows;
  - the `input`, `change`, clear and drag-end handlers;
  - the mutations `addItem`, `removeItem` and `updateText`.

Each widget has its own module:
- `CalcValidate` and `CalcSyntax` hold the validator and its reference specification.
- `CalcDisplay` holds the display code.
- `CalcEditor` holds the buffer and `evaluate`.
- `Calendar`, `Holidays` and `Eod` hold the other three widgets.

`JsText` holds the JavaScript built-ins the widgets use:
- `%` on negative numbers;
- `String(n)`, `parseInt` and `slice`;
- `trim` blankness;
- the regular-expression classes `\d` and `\w`.

Modelling choices:
- JavaScript numbers are modelled as unbounded integers.
- Dates are triples `(y, m0, d)` with a 0-based month, as in the source.
- The JavaScript `Date` arithmetic is written out explicitly: day overflow, and the `Date.UTC` rule that maps years 0..99 to 1900..1999.

Things the widgets get from the browser become parameters:
- **Expression evaluator:** the `Function(...)` call plus `isFinite` and rounding become the function `compute`, which returns `Computed`.
- **`uid()` values:** the default checklist rows take their ids from `drawn`.
- **Drag order:** the order the DOM holds after a drag becomes a permutation `perm` of the rendered rows.
- **Stored list:** the list read from `localStorage` becomes `stored: Option<seq<Item>>`.
- **Confirmation:** the answer to `confirm` becomes `confirmed`.

## Model

| member | source | states |
|---|---|---|
| CalcValidate.Validate | calculator.js:57-179 | The message is empty exactly when there are no errors. Otherwise it is the message of the first error's reason. Every error span covers exactly one character inside the string. |
| CalcValidate.MessageIsFirst | calculator.js:59-66 | Each push sets the message only while it is still empty. So after any sequence of pushes the message is empty exactly when nothing was pushed, and otherwise it is the text of the first reason pushed. |
| CalcValidate.InvalidChars | calculator.js:62-68 | The characters outside digits, `.`, `+-*/`, parentheses and space are the ones flagged `InvalidChar`, and no others. Earlier errors are kept as a prefix. |
| CalcValidate.PushOpens | calculator.js:170-176 | Every still-open `(` index is flagged `UnmatchedOpen` after the existing errors, and nothing else is added. |
| CalcSyntax.ValidateFlags | calculator.js:57-179 | For every index and reason, `validate` flags it if and only if the independent reference predicate `Expected` holds. That predicate is written per rule: invalid char, misplaced/double/lonely dot, leading/double op, empty parens, unmatched `)`, trailing op, unmatched `(`. |
| CalcSyntax.ValidateExactly | calculator.js:57-179 | A span is in the error list if and only if it has width one and `Expected` holds for its start and reason. |
| CalcSyntax.OpenStackIff | calculator.js:129-157 | The stack of open parentheses after a prefix holds exactly the `(` that no later `)` in that prefix closes. |
| CalcSyntax.ScanFlags | calculator.js:70-161 | The left-to-right scan adds exactly the errors the reference predicate expects from the current position on. |
| CalcDisplay.EscapeHtml | calculator.js:17-18 | The escaped text is never shorter than the input and contains no `<`, `>`, `"` or `'`. |
| CalcDisplay.RenderDisplay | calculator.js:21-24 | With no ranges the display is the escaped buffer: no shorter than the buffer and without any `<`, so no highlight markup at all. |
| CalcDisplay.UnescapeEscape | calculator.js:17-18 | Decoding the five entities recovers the original string exactly (round trip). |
| CalcDisplay.EscapeAppend | calculator.js:17-18 | Escaping distributes over concatenation, so the escaped pieces of the display join to the escaped buffer. |
| CalcDisplay.EscapePlain | calculator.js:17-18 | Text without the five special characters is left unchanged. |
| CalcDisplay.SortByStart | calculator.js:27 | The result is ordered by start and is a permutation (multiset-equal) of the ranges. |
| CalcDisplay.Merge | calculator.js:28-32 | The merged ranges are pairwise separated. They cover exactly the positions the sorted input ranges cover. Each merged range starts where some input range starts. |
| CalcDisplay.RenderSpellsBuffer | calculator.js:34-41 | For ranges inside the buffer, the plain and highlighted pieces spell out the whole buffer, in order and without repeats. |
| CalcDisplay.RenderMarksCovered | calculator.js:26-41 | A character of the buffer lies in a highlighted piece if and only if one of the reported ranges covers it. |
| CalcDisplay.RenderDisplayPieces | calculator.js:21-43 | For ranges inside the buffer, the markup is made of pieces that spell the buffer, and exactly the covered characters sit inside `<span class="err">`. |
| CalcDisplay.LayoutMarks | calculator.js:34-41 | For separated merged ranges, the segment loop marks a character from the current index on exactly when a merged range covers it. |
| CalcDisplay.FastPathAgrees | calculator.js:22-25 | With no ranges, the early return gives the same HTML as the general segment loop. |
| CalcDisplay.MatchShape | calculator.js:185 | The divisor pattern matches at a `/` exactly when a zero literal follows it and ends at a word boundary. The reported span is that literal. |
| CalcDisplay.MatchIsGreedy | calculator.js:185 | A match ends after the fraction exactly when a dot, at least one zero and a word end follow the first zeros, and otherwise right after the first zeros. |
| CalcDisplay.DivZeroMatch | calculator.js:185 | A match at a `/` covers the slash and at least one zero, and ends inside the buffer. Its shape and greediness are stated by CalcDisplay.MatchIsGreedy. |
| CalcDisplay.FindDivisionByZeroRanges | calculator.js:182-193 | Every reported range is a zero literal right after a `/`, ending at a word boundary, and ends where the pattern ends it: the `.0+` fraction is included exactly when it ends at a word boundary, otherwise the range stops before the dot. The ranges are strictly increasing and do not touch. |
| CalcDisplay.FindDivisionByZeroRangesComplete | calculator.js:182-193 | A range starts right after index `q` if and only if `q` holds the `/` of a literal zero divisor. |
| CalcDisplay.HasZeroDivisor | calculator.js:182-193 | The list of ranges is non-empty if and only if some `/` in the buffer has a zero divisor. |
| CalcDisplay.BacksOffBeforeDot | calculator.js:185 | In `5/00.005` the optional fraction cannot end at a word boundary, so only `00` is reported. |
| CalcDisplay.TakesZeroFraction | calculator.js:185 | In `5/0.0` the fraction ends at the end of the text, so the whole `0.0` is reported. |
| CalcEditor.Reset | calculator.js:202-206 | The buffer becomes `0`, not marked as evaluated, which passes validation with no message. |
| CalcEditor.AppendNumber | calculator.js:208-215 | The result ends with the typed key and is not marked evaluated. It is no longer than the typed buffer. It keeps every non-zero character of the typed buffer in order, so the cleanup only ever removes zeros. |
| CalcEditor.StripZeros | calculator.js:213 | The leading-zero replacement never lengthens the text. |
| CalcEditor.StripZerosOnlyZeros | calculator.js:213 | The leading-zero replacement removes only `0` characters. |
| CalcEditor.StripZerosQuiet | calculator.js:213 | Where the pattern matches nowhere, the text is unchanged. |
| CalcEditor.NoDoubleZero | calculator.js:210-213 | Typing `0` on the buffer `0` keeps a single `0`. |
| CalcEditor.LeadingZerosDropped | calculator.js:211-213 | `00` followed by `7` becomes `7`. |
| CalcEditor.KeepsZeroPointFive | calculator.js:210-213 | `0.` followed by `5` stays `0.5`, as the source comment promises. |
| CalcEditor.FractionZeroDropped | calculator.js:213 | As written: `0.0` followed by `5` becomes `0.5`, because the `.` is a word boundary. |
| CalcEditor.IntendedKeepsDecimal | calculator.js:212-213 | With the boundary that excludes a preceding `.`, any decimal number whose integer part has no leading zero is kept exactly. |
| CalcEditor.IntendedKeepsFractionZero | calculator.js:212-213 | With that boundary, `0.0` followed by `5` gives `0.05`. |
| CalcEditor.AppendDot | calculator.js:217-224 | After a digit exactly `.` is appended. After `)` or `.` the text `*0.` is appended. Otherwise `0.` is appended. The result ends with a digit then `.`. |
| CalcEditor.Backspace | calculator.js:226-230 | After an evaluation it resets. Otherwise it drops exactly the last character, or leaves `0` when at most one character remains. |
| CalcEditor.BackspaceUndoesDot | calculator.js:217-230 | After a digit, backspace undoes appendDot. |
| CalcEditor.InsertOp | calculator.js:232-243 | A `-` on an empty buffer or after `(` is appended as it is. Otherwise a trailing operator is replaced by the new one. Otherwise the operator is appended after a digit or `)`, and `0` plus the operator after anything else. The buffer always ends with the operator. |
| CalcEditor.InsertOpKeepsOpsApart | calculator.js:232-243 | If no two operators were adjacent before, none are adjacent after. |
| CalcEditor.ToggleParen | calculator.js:245-264 | `0` or an empty buffer becomes `(`. With more `(` than `)` and a digit or `)` at the end, `)` is appended. Otherwise `*(` is appended after a digit or `)`, and `(` after anything else. Never more `)` than `(` results. |
| CalcEditor.StripTrailing | calculator.js:267-270 | The longest prefix that does not end with an operator or `(`. Only operators and `(` are removed. |
| CalcEditor.SanitizeForEval | calculator.js:266-274 | Only `)` are appended after the stripped prefix. When `(` are in surplus, exactly enough are appended to balance them. Otherwise nothing is appended. |
| CalcEditor.SanitizeAccepted | calculator.js:266-274 | A buffer the syntax pass accepts is left unchanged by sanitizing. |
| CalcEditor.MathShown | calculator.js:291-298 | A non-finite result keeps the buffer and shows the math message. When some `/` has a zero divisor, the highlighted ranges are exactly the zero-divisor ranges. When none has, the one range covers the whole buffer with the math reason. |
| CalcEditor.Compute | calculator.js:285-311 | A finite result replaces the buffer, sets the evaluated flag and clears highlights. Otherwise the buffer and flag are unchanged and something is highlighted. |
| CalcEditor.Evaluate | calculator.js:276-284 | With syntax errors nothing is computed: the editor is unchanged and the errors and message are shown. Without errors it computes. |
| Calendar.DaysInMonth | calendar.js:29-31 | Every month has 28..31 days. February has 29 exactly in a Gregorian leap year. April, June, September and November have 30. |
| Calendar.YearLength | calendar.js:29-31 | The twelve months add up to 366 days in a leap year and 365 otherwise. |
| Calendar.MonthName | calendar.js:32-34 | Names are upper case and at least three letters long. |
| Calendar.MonthNamesDistinct | calendar.js:32-34 | Two months have the same name if and only if they are the same month. |
| Calendar.Dow | calendar.js:24-28 | The truncating `%` gives a value in -6..6. When the shifted year and the day are non-negative, it equals `Weekday`, the floored remainder of the same sum. `Weekday` is pinned to the real calendar by Calendar.WeekdayNext and Calendar.KnownMonday. |
| Calendar.KnownMonday | calendar.js:24-28 | 1 January 2024 gets weekday 1, Monday, from both `Weekday` and `dow`. |
| Calendar.DowWeek | calendar.js:24-28 | Seven days later is the same weekday. |
| Calendar.DowMonthStep | calendar.js:24-31 | The first of the next month falls `daysInMonth` weekdays later. |
| Calendar.WeekdayNext | calendar.js:24-28 | The next day is the next weekday. With Calendar.KnownMonday this ties the formula to the real week, every year. |
| Calendar.PrevOfNext | calendar.js:70-78 | Stepping a day back undoes stepping a day forward. |
| Calendar.GotoPrev | calendar.js:202 | The month index `12y+m` drops by one and the month stays in 0..11. |
| Calendar.GotoNext | calendar.js:203 | The month index `12y+m` grows by one and the month stays in 0..11. |
| Calendar.NavigationInverse | calendar.js:202-203 | Previous and next month undo each other. |
| Calendar.ApplySelection | calendar.js:130-141 | Whichever of month and year changed, the view ends at the chosen year and month. |
| Calendar.ApplyIdempotent | calendar.js:130-141 | Applying the same selection twice is the same as once. |
| Calendar.FirstDow | calendar.js:62 | For years from 1 on, the grid's offset is the weekday of the 1st. |
| Calendar.CellInMonth | calendar.js:64-78 | For every year, cell `i` belongs to the viewed month if and only if `f <= i < f + daysInMonth`. That cell is day `i-f+1`. |
| Calendar.Cell | calendar.js:62-78 | Every one of the 42 cells is a valid calendar day, for every year. |
| Calendar.GridCell | calendar.js:64-78 | Whatever the column of day 1, the grid arithmetic yields a valid day, spilling into the neighbouring months. |
| Calendar.CellsConsecutive | calendar.js:64-78 | Each cell holds the day after the previous cell, so the 42 cells are consecutive days across the month borders. |
| Calendar.CellNeighbours | calendar.js:70-78 | Cells before the month lie in the previous month and cells after it in the next. |
| Calendar.SundayColumn | calendar.js:94 | For years from 1 on, cell `i` falls on weekday `i % 7`, so column 0 holds exactly the Sundays. |
| Calendar.ISORoundTrip | calendar.js:37-40 | Parsing the key of a day gives back that day. |
| Calendar.ISOInjective | calendar.js:37-40 | Two days have the same key if and only if they are the same day. |
| Calendar.ISOShape | calendar.js:37-40 | A key is the year's digits followed by `-MM-DD`. |
| Calendar.ToISO | calendar.js:37-40 | A key starts with the year's text followed by a dash, and has at least six more characters. |
| Calendar.ISOFourDigitYear | calendar.js:37-40 | For years 1000..9999 the key is ten characters long, `YYYY-MM-DD`. |
| Holidays.AddDays | ph-holidays.js:16-20 | The result is always a valid calendar day. |
| Holidays.ShiftDate | ph-holidays.js:16-20 | `addDays` on any input month yields a valid calendar day. |
| Holidays.AddDaysCompose | ph-holidays.js:16-20 | Adding `a` then `b` days is adding `a+b` days. |
| Holidays.AddDaysInMonth | ph-holidays.js:16-20 | A shift that stays inside the month only changes the day. |
| Holidays.WeekdayAddDays | ph-holidays.js:16-20 | Shifting by `n` days shifts the weekday by `n` mod 7. |
| Holidays.UtcYear | ph-holidays.js:17 | `Date.UTC` keeps the year exactly when it lies outside 0..99. |
| Holidays.UtcDateInRange | ph-holidays.js:17 | An in-range day of the `Date.UTC` year is taken as is. |
| Holidays.Easter | ph-holidays.js:7-15 | For non-negative years Easter falls between 22 March and 25 April. |
| Holidays.EasterIsSunday | ph-holidays.js:7-15 | For non-negative years the computed date has `Weekday` 0 and `dow` 0: a Sunday under the same weekday sum the calendar uses. |
| Holidays.EasterBeforeYearZero | ph-holidays.js:7-15 | Below year 0 the truncating `%` breaks the computation: year -1 gets 23 March, a Tuesday, and year -1943 gets 31 February, which is not a day. |
| Holidays.LastMonday | ph-holidays.js:23-29 | The result is in the given month, within its last seven days, and a Monday. The month length and weekday are those of the `Date.UTC` year. |
| Holidays.SetAllLastWins | ph-holidays.js:40-73 | After a run of `set` calls a key holds the value of its last call. A key never set keeps its old entry. |
| Holidays.ExtrasFor | ph-holidays.js:69-71 | An extra is added if and only if its key starts with the year text. No other entry is added. |
| Holidays.ExtrasForAppend | ph-holidays.js:69-71 | The kept extras are in table order: filtering two parts and joining them is filtering the whole. |
| Holidays.NoExtras | ph-holidays.js:33-37 | With the empty extra table, the map is exactly the twelve fixed calls. |
| Holidays.SetFixed | ph-holidays.js:44-65 | The fixed calls define exactly their twelve keys. Each key holds the name of the last of the twelve calls on it, and every name is non-empty. |
| Holidays.SetAllFromEmpty | ph-holidays.js:40-73 | A map built from empty holds exactly the keys the calls set, each with its last value, all non-empty when the names are. |
| Holidays.SetFixedSharedKey | ph-holidays.js:54-61 | When the three computed dates share one key, it holds Good Friday. |
| Holidays.SetFixedFirst | ph-holidays.js:44 | The first call's key holds New Year's Day when no later call sets it. |
| Holidays.HolidayMap | ph-holidays.js:40-73 | The map holds the twelve fixed keys and the keys of the year's extras, and no others, and every name in it is non-empty. |
| Holidays.GoodFridayAfterMaundy | ph-holidays.js:57-59 | Good Friday is the day after Maundy Thursday. |
| Holidays.Maundy | ph-holidays.js:57 | Maundy Thursday, three days before Easter, is always a real calendar date. |
| Holidays.GoodFriday | ph-holidays.js:58 | Good Friday, two days before Easter, is always a real calendar date. |
| Holidays.MaundyBeforeEaster | ph-holidays.js:57-58 | From year 100 on, Maundy Thursday is Easter minus three days. |
| Holidays.GoodFridayBeforeEaster | ph-holidays.js:57-59 | From year 100 on, Good Friday is Easter minus two days. |
| Holidays.HolyWeekDays | ph-holidays.js:57-61 | From year 100 on, Maundy Thursday is a Thursday and Good Friday a Friday. |
| Holidays.HolyWeekInSpring | ph-holidays.js:57-59 | Both Holy Week days lie in the `Date.UTC` year, no later than June. |
| Holidays.HolyWeekCenturyShift | ph-holidays.js:17-19 | For years 0..99 the Holy Week days land in 1900+year, so their keys belong to another year. |
| Holidays.KeysStartWithYear | ph-holidays.js:40-73 | Outside years 0..99 every key of the year's map starts with the year's digits. |
| Holidays.AprilNinth | ph-holidays.js:45-61 | 9 April is Araw ng Kagitingan unless Maundy Thursday or Good Friday falls on it. In that case the later call wins. |
| Holidays.ChristmasDay | ph-holidays.js:49 | 25 December is always Christmas Day. |
| Holidays.NamesNonEmpty | ph-holidays.js:44-73 | Every name in the map is non-empty, so the `|| null` in the lookup never hides one. |
| Holidays.YearOfKey | ph-holidays.js:77 | For years -999..9999, whose text fits in four characters, `parseInt` of the first four characters of a key gives back its year. |
| Holidays.PhHolidayNameForISO | ph-holidays.js:76-80 | A name returned is never empty. A key whose first four characters hold no number is looked up in the map for the year `NaN`. |
| Holidays.LookupByISO | ph-holidays.js:76-80 | For years -999..9999 the lookup of a key finds exactly the entry that year's map holds for it, and `None` when it holds none. |
| Holidays.LetterFirstUnparsed | ph-holidays.js:77 | A string that starts with a letter gives `NaN` from `parseInt`. |
| Holidays.LookupWithoutYear | ph-holidays.js:76-80 | When the year does not parse, the lookup finds exactly what the year-`NaN` map holds. |
| Holidays.NaNKeysSpelled | ph-holidays.js:3-4 | In the year `NaN` the fixed keys read `NaN-01-01`, `NaN-04-09` and so on. |
| Holidays.NaNYearTable | ph-holidays.js:40-65 | The year-`NaN` map has ten keys. National Heroes' Day, Maundy Thursday and Good Friday all get `NaN-NaN-NaN`, which holds Good Friday. |
| Holidays.NaNDateLookup | ph-holidays.js:76-80 | `NaN-NaN-NaN` looks up Good Friday. |
| Holidays.NaNNewYearLookup | ph-holidays.js:76-80 | `NaN-01-01` looks up New Year's Day. |
| Eod.Load | eod.js:16-27 | A non-empty stored list is used as it is. Otherwise there are 15 rows with fresh ids, empty text and not done. |
| Eod.SaveLoad | eod.js:16-30 | Loading what was saved gives it back. |
| Eod.DefaultRowsBlank | eod.js:23-26 | The default rows have distinct ids exactly when the drawn ids are distinct. |
| Eod.Render | eod.js:53-60 | The corrected render: the checkbox is drawn after the blank-row reset. It keeps ids and text, clears `done` exactly on blank rows, and the checkboxes agree with the items: ticked means done, disabled means blank. Eod.StartIntended and Eod.RenderKeepsNormalized use it; eod.js:51 as written is Eod.RenderAsWritten. |
| Eod.Normalize | eod.js:53-59 | Drawing an item keeps its id and text, and leaves it done exactly when it was done and its text is not blank. |
| Eod.RenderAsWritten | eod.js:51-60 | As written, the checkbox state is copied before the blank-row reset, so a row keeps the stored tick. |
| Eod.RenderKeepsNormalized | eod.js:53-60 | Rendering leaves the items unchanged if and only if no blank row is done. It is idempotent. |
| Eod.RenderAsWrittenDiffers | eod.js:51-60 | The as-written screen equals the consistent one if and only if no stored blank row is done. |
| Eod.StaleTick | eod.js:51-60 | A stored blank done row renders ticked but disabled while the item is not done. Typing then enables the stale tick. |
| Eod.FindIndex | eod.js:150 | The first index with the id, or `None` exactly when no item has it. |
| Eod.AddItem | eod.js:142-143 | The item list grows by exactly one not-done item at the end. |
| Eod.RemoveItem | eod.js:149-156 | An absent id changes nothing. Otherwise exactly the first item with that id is removed. |
| Eod.RemoveAfterAdd | eod.js:142-156 | Removing a freshly added item restores the list. |
| Eod.UpdateText | eod.js:157-162 | Only the first item with the id gets the new text. Nothing else changes. |
| Eod.UpdateTextTwice | eod.js:157-162 | Two updates of the same item are the same as the last one. |
| Eod.ClearAll | eod.js:174 | Every item keeps its id, gets empty text and is not done. |
| Eod.ClearIdempotent | eod.js:171-177 | Clearing twice is clearing once. The cleared screen has every checkbox unticked and disabled. |
| Eod.Reorder | eod.js:109-110 | The rebuilt list holds only items whose ids were in the new order. When every id is found, position `k` holds the item with id `order[k]`. |
| Eod.PermutedElements | eod.js:106-112 | A permutation of distinct items keeps them distinct and is multiset-equal to them. |
| Eod.DragEndItems | eod.js:106-112 | With distinct ids, rebuilding by id yields exactly the items permuted as the DOM was. |
| Eod.DragEndPermutes | eod.js:106-112 | A drop keeps the screen consistent and the ids distinct, and it permutes the items. |
| Eod.DragEnd | eod.js:106-112 | There is one row per dropped position and no more items than rows. |
| Eod.OnInput | eod.js:80-98 | The text goes through `updateText` and every other row and item is unchanged. A row that becomes blank while enabled is unticked, disabled and its item set not done; one already disabled is left alone. A row that becomes non-blank is enabled and keeps its tick. |
| Eod.InputKeepsConsistent | eod.js:80-98 | Typing keeps the checkboxes consistent with the items. |
| Eod.OnChange | eod.js:65-69 | A disabled checkbox changes nothing. Otherwise the item's done flag and the box follow the tick. The item keeps its id and text, the box keeps its disabled state, and every other item and row is unchanged. |
| Eod.ChangeKeepsConsistent | eod.js:65-69 | Ticking keeps the checkboxes consistent with the items. |
| Eod.OnClear | eod.js:171-177 | Without confirmation nothing changes. With it, every row is emptied and unticked and the screen stays consistent. |
| Eod.Start | eod.js:180 | The first screen is `render()` as written on the loaded list. The list equals the one Eod.Render gives. The page agrees with it if and only if no loaded empty row was done, so always for the default rows. |
| Eod.StartIntended | eod.js:180 | With the checkbox drawn after the reset, the first screen always agrees with the list. It is the as-written one exactly when no loaded empty row was done. |
| Eod.RenderKeepsConsistentOnlyIfClean | eod.js:51-60 | Drawn as written, the page agrees with the list if and only if no empty row was done. |
| JsText.Pad | ph-holidays.js:3 | Below 10 a `0` is put before the digits, otherwise the digits are kept, so the text is at least two characters long. |
| JsText.PadTwoDigits | ph-holidays.js:3 | For 0..99 the padded text is exactly the two decimal digits. |
| JsText.Count | calculator.js:15 | The number of occurrences of a character is its multiplicity in the string. |
| JsText.ParseIntOfNat | ph-holidays.js:77 | `parseInt` reads back a non-negative number's decimal text when a non-digit or nothing follows it. |
| JsText.ParseIntOfInt | ph-holidays.js:77 | `parseInt` reads back any integer's text, with its minus sign, when a non-digit or nothing follows it. |

## Left out

- The arithmetic of `evaluate`:
  - The `Function(...)` evaluation, `isFinite` and the floating-point rounding to ten decimals are the parameter `compute`.
  - IEEE-754 arithmetic is outside the model.
- The percent key (calculator.js:322-338) is not modelled: it is floating-point arithmetic on the last number.
- Keyboard and click dispatch (calculator.js:315-385) are event wiring that only calls the modelled actions.
- DOM writes (`innerHTML`, classes, `setMessage`) and focus are left out. The display is modelled as the HTML string and the pieces it is made of.
- CalcEditor.AppendNumber: the contract states that only zeros are removed and that the key stays last. It does not state the exact replacement, which the lemmas show on concrete inputs.
- Calendar:
  - The Manila "today" (`Intl.DateTimeFormat`) and the `today` highlight depend on the clock.
  - Swipe gestures, the picker's DOM and `closePicker` are input plumbing around ApplySelection, GotoPrev and GotoNext.
  - The holiday tooltip is covered by the lookup model.
- Calendar.SundayColumn and Calendar.FirstDow: stated for years from 1 on. Before that, the truncating `%` in `dow` can give a negative offset, which the grid model handles but these lemmas do not cover.
- Calendar.ISOFourDigitYear: keys have a four-digit year only for years 1000..9999. Shorter or signed years give shorter keys, as in the source.
- Holidays.KeysStartWithYear: stated outside years 0..99. Inside that range `Date.UTC` moves the Holy Week keys to 1900+year (Holidays.HolyWeekCenturyShift). National Heroes' Day keeps the year in its key, but its day is the last Monday of August 1900+year.
- Holidays.HolyWeekDays, Holidays.MaundyBeforeEaster and Holidays.GoodFridayBeforeEaster: stated from year 100 on. Years 0..99 go through the 1900+year shift of `Date.UTC`. Negative years keep their year, but the Easter computation uses the truncating `%` on negative operands and can land on a day that is not a Sunday, or on 31 February (Holidays.EasterBeforeYearZero).
- Holidays.LookupByISO and Holidays.YearOfKey: stated for years -999..9999. Above 9999 or below -999 the year's text is longer than four characters, so the first four characters are not the year, as in the source.
- Holidays.PhHolidayNameForISO: for a year that does not parse, the map for the year `NaN` is built from its keys (Holidays.NaNYearTable) rather than from `Date` arithmetic on `NaN`. The model takes the computed dates to be invalid and spelled `NaN-NaN-NaN`, and the month and day of the fixed holidays to be padded as usual.
- Eod storage:
  - `localStorage` and `JSON` are the `stored` parameter. A JSON value that is not a list, or items of the wrong shape, are not modelled.
  - `uid()` randomness is the `drawn` parameter.
- Eod.Load: the contract does not claim distinct ids for the default rows. Eod.DefaultRowsBlank shows they are distinct exactly when the drawn `uid()` values are.
- The `maxLength` of 120 on the text input is a browser limit on what can be typed and is not modelled.
- Drag geometry (`getDragAfterElement`, `dragover`, eod.js:120-139) decides where the row lands in the DOM. It is replaced by the permutation `perm` the drop produces.
- Eod ids are assumed distinct where a contract relies on it (Eod.DragEndItems, Eod.DragEndPermutes). With repeated ids `find` returns the same object for two rows, and the sharing and aliasing of item objects (eod.js:88, eod.js:110) are not modelled: items are values.
- `render()` replays the whole list from the items, and the screen model is the result of that replay. Focus after `addItem` is left out.

## Findings

| source | as written | input that shows it | evidently intended | confidence | as-written member | corrected member |
|---|---|---|---|---|---|---|
| calculator.js:212-213 | `\b0+(?=\d)` matches after a `.`, because `.` is not a word character | buffer `0.0`, then key `5` gives `0.5` | keep `0.xxx` intact as the comment says, giving `0.05` | not executed | CalcEditor.FractionZeroDropped | CalcEditor.IntendedKeepsDecimal |
| eod.js:51-59 | the checkbox is ticked from `it.done` before the blank-row reset clears `done` | stored `[{id:"a", text:"", done:true}]` renders a ticked disabled box for an item that is not done; typing enables the stale tick | the box of a blank row is unticked, matching `done = false` | not executed | Eod.StaleTick | Eod.StartIntended |
