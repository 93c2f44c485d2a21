# Friday leave scheduler — a Dafny model of its rules

The scheduler is a single-page admin tool behind a password. It lists the
Fridays of a month, shows for each Friday the employees who asked for leave,
and lets an administrator register, approve, reject and remove those leave
requests. Leave statuses are stored in Portuguese: `Pendente` (pending),
`Folga` (approved day off) and `Rejeitada` (rejected).

This project models the rule layer of `script.js` as pure Dafny functions over
immutable data:

- `calendar.dfy` (`Calendar`): an explicit proleptic Gregorian calendar
  (leap years, month lengths, a day count from 0001-01-01 and the weekday
  derived from it, numbered as `getDay` numbers them) in place of the host
  `Date` object, plus `setDate(getDate() + k)` as `Advance`.
- `fridays.dfy` (`Fridays`): `new Date(y, m, 1)` and `getFridaysInMonth`, as a
  method with the source's two loops.
- `decimal.dfy` (`Decimal`): `String(n)`, `padStart(2, '0')`, `split('/')` and
  the digit readers that invert them.
- `date_format.dfy` (`DateFormat`): `toISODate` (`YYYY-MM-DD`, the store
  form), `formatBR` (`DD/MM/YYYY`, the display form and view-model key),
  `toISODateBR`, and parsers for both forms.
- `html.dfy` (`Html`): `escapeHtml` and its inverse.
- `leaves.dfy` (`Leaves`): statuses, the employee and leave rows, and the
  grouping of leaves into `fridayData` keyed by display date.
- `sync.dfy` (`Sync`): the page state and `syncFromDB`, with its half-open
  month window.
- `stats.dfy` (`Stats`): `updateStats`, the Friday-card count, the leave-table
  filter and `populateEmployeeSelect`.
- `gate.dfy` (`Gate`): the password modal's one-slot state machine.
- `store.dfy` (`Store`): the `folgas` table as a map keyed by
  `(employee_id, friday_date)`, with upsert, approve, reject, remove and
  toggle, and the action buttons offered per status.

The two queries of `syncFromDB` are parameters: each is either an error
message or data that may be null. The `folgas` table is a map, and the
`funcionarios` table is only the roster sequence the first query returns.

## Behaviour of the code worth noting

- A successful roster query replaces `employeesDB` at once (script.js:159).
  If the leave query then fails, the new roster stays and `fridayData` keeps
  its old contents.
- `fridayData` keeps records of every status the table returns. Statuses
  other than the three known ones are dropped only where the cards count and
  the table lists records (script.js:252, 290-291).
- "Toggle" (the "Remover folga" button) deletes the row, like removal
  (script.js:370-373). It does not flip the status.
- Statuses are compared as strings (script.js:220-221, 252, 291). The model
  reads every stored string once into a `StoredStatus`, whose `Other` case
  never spells a known status, so comparing statuses agrees with comparing
  their strings.

## Model

| member | source | states |
|---|---|---|
| Calendar.Advance | script.js:239-240 | `setDate(getDate() + k)` moves exactly k days forward in the day count and stays in the same month exactly when the new day is still within that month's length |
| Fridays.FirstOfMonth | script.js:238 | `new Date(y, m, 1)` is a valid first-of-month date; years 0..99 mean 1900..1999 and an out-of-range month index rolls into neighbouring years |
| Fridays.FirstFriday | script.js:239 | the day-by-day loop stops at a Friday within the first seven days of the month, and no earlier day of the month is a Friday |
| Fridays.FridaysInMonth | script.js:236-242 | every date returned is a valid Friday in month m of the host year; consecutive dates are 7 days apart; the first is on day 1-7; there are 4 or 5; every Friday of the month is present; a month index outside 0..11 gives no dates |
| Decimal.Pad2 | script.js:27-28 | `String(n).padStart(2,'0')` is two digits that read back as n |
| Decimal.ParseIntToString | script.js:26-29 | `String(y)` of any year reads back as that year |
| Decimal.SplitJoin | script.js:32 | `split('/')` of pieces joined by `/` gives back the pieces when none contains `/` |
| DateFormat.ToISODateShape | script.js:25-30 | `toISODate` is the year followed by `-MM-DD`, month and day zero-padded to two digits, ten characters for four-digit years |
| DateFormat.ParseToISODate | script.js:25-30 | the store form is lossless: reading it back gives the same date |
| DateFormat.ParseFormatBR | script.js:35-37 | the display form `DD/MM/YYYY` is lossless: reading it back gives the same date |
| DateFormat.ToISODateBRFormatBR | script.js:31-36 | `toISODateBR(formatBR(d)) == toISODate(d)`: the display key maps back to the stored `friday_date` |
| DateFormat.FormatBRInjective | script.js:176-178 | two dates share a display key if and only if they are the same date |
| Html.UnescapeEscape | script.js:38-42 | decoding the five entities undoes `escapeHtml`, so escaping loses nothing |
| Html.EscapeRemovesMarkup | script.js:38-42 | the escaped text contains no raw `<`, `>`, `"` or `'` |
| Html.EscapeLength | script.js:38-42 | the output is at least the input length, growing by 3 to 5 characters per special character |
| Html.EscapeUnchanged | script.js:38-42 | the text comes back unchanged if and only if it has no special character |
| Html.EscapeConcat | script.js:38-42 | replacement is character by character: escaping distributes over concatenation |
| Leaves.ParseStatus | script.js:202-209 | every stored status string has exactly one reading, known or `Other`, which spells it back |
| Leaves.ParseStatusName | script.js:202-209 | reading the spelling of a status gives that status back |
| Leaves.StoredComparison | script.js:219-222 | on statuses read from the table, testing a status against `Folga`, `Pendente` or `Rejeitada` gives the same answer as the source's string comparison |
| Leaves.LastIndexWithId | script.js:173 | the employee map holds, for each id, the last roster employee with that id, and nothing for ids not in the roster |
| Leaves.FindEmployee | script.js:173-184 | `empMap.get(id)` is absent exactly when no roster employee has that id, and otherwise is the last such employee |
| Leaves.Merge | script.js:179-185 | the merged record keeps id, employee id and status, turns absent notes into `''`, and has no employee exactly when the id is not in the roster |
| Leaves.LookupInsert | script.js:178-179 | pushing under a key appends the record to that key's list and changes no other key's list |
| Leaves.KeysInsert | script.js:178 | pushing under a new key appends that key; an existing key leaves the key list as it was |
| Leaves.CountInsert | script.js:178-179 | each push adds one record in total and one to the count of its own status only |
| Leaves.GroupLookup | script.js:172-186 | after grouping, each key holds exactly the fetched leaves whose Friday has that display form, merged, in fetch order |
| Leaves.GroupKeys | script.js:172-186 | the keys of `fridayData` are the display forms of the fetched Fridays, each exactly once |
| Leaves.GroupCounts | script.js:175-186 | every fetched leave appears exactly once: the record total is the number of fetched leaves, and likewise per status |
| Sync.ErrorText | script.js:193-196 | the error dialog shows the error's message, or "Erro desconhecido" when it is empty |
| Sync.LeaveWindow | script.js:161-168 | the leave query runs from the first of the month to the first of the next month, with December rolling over to January of the next year |
| Sync.LeaveWindowDates | script.js:161-168 | both window bounds read back as those first-of-month dates |
| Sync.NextMonthOfFirst | script.js:162 | `new Date(y, m + 1, 1)` is the first day of the month after `new Date(y, m, 1)` |
| Sync.InLeaveWindow | script.js:161-168 | a date falls in the half-open window if and only if it lies in the requested month |
| Sync.QueryWindowMonth | script.js:161-168 | the page's leave query has bounds that read back as the first of the month and of the next, and a stored Friday lies between them exactly when it is in month `currentMonth + 1` of the host year |
| Sync.SyncFromDB | script.js:151-199 | a failed roster query changes nothing and reports; a successful one replaces the roster even if the leave query then fails; `fridayData` is rebuilt from scratch only when both succeed |
| Sync.SyncIdempotent | script.js:151-190 | a second sync with the same answers leaves the same state and report |
| Sync.SyncViewModel | script.js:172-186 | after a successful sync each key holds exactly its Friday's leaves in fetch order, keys are distinct and the record total equals the number of leaves fetched |
| Sync.KeyMapsBack | script.js:176-177 | a record's display key reads back as its stored date and converts back to its store form |
| Stats.UpdateStats | script.js:212-233 | total is the roster size; with no selection, on-leave and pending are 0 and working is the total; working is `max(0, total - onLeave - pending)`, never negative or above the total; the header counts `Pendente` records under every key |
| Stats.SelectedCounts | script.js:216-222 | with a selection, on-leave and pending are the numbers of `Folga` and `Pendente` records of that Friday, together at most its record count |
| Stats.HeaderAtLeastSelected | script.js:228-231 | the header's pending count is at least the pending count of any one Friday |
| Stats.ListedOnly | script.js:290-291 | the table keeps exactly the records with status `Folga`, `Pendente` or `Rejeitada` |
| Stats.ListedCounts | script.js:252 | the card count is the number of `Folga` plus `Pendente` plus `Rejeitada` records; other statuses are not counted |
| Stats.CardMatchesTable | script.js:251-252 | the selected Friday's card shows the number of table rows, which bounds on-leave plus pending |
| Stats.Unregistered | script.js:418-424 | an employee is offered if and only if it is in the roster and its id is not registered on the selected Friday |
| Stats.EmployeeChoices | script.js:414-429 | the select holds the prompt, then one option per unregistered employee in roster order; when none remain it holds only the "all registered" option |
| Stats.NothingRegisteredScenario | script.js:212-226 | two employees with nothing registered on the selected Friday: on-leave 0, pending 0, working 2 |
| Stats.OnePendingScenario | script.js:172-186 | after a sync returning one pending registration the header pending count is 1 |
| Gate.Show | script.js:65 | opening the modal arms the slot with the action, or empties it when the argument is not a function, and hides the error line |
| Gate.Submit | script.js:79-103 | a wrong password invokes nothing, keeps the action armed and shows the error; the right password empties the slot, closes the modal and invokes the armed action |
| Gate.RunDisarmed | script.js:91-98 | once the slot is empty, no further submission invokes anything |
| Gate.ArmedRunsOnce | script.js:79-103 | after arming an action, any run of attempts invokes it exactly once if the password is among them, and never otherwise |
| Gate.ShowReplaces | script.js:65 | opening the modal again replaces the armed action: only the second one runs |
| Store.UpsertLeave | script.js:346-352 | afterwards exactly one row exists for the pair, `Pendente` with the waiting note; an existing row keeps its id, a new one gets a fresh id; no other row changes; ids stay unique |
| Store.UpsertTwice | script.js:346-352 | registering twice for the same pair leaves the same single row as registering once |
| Store.UpsertFromKey | script.js:346-350 | registering from a Friday's display key stores that Friday's store-form date |
| Store.FetchedRow | script.js:175-183 | a stored entry comes back from the query with its id, employee id, status, notes and the date its store-form column holds, and not at all when that column is not a calendar date |
| Store.RegisteredRowFetched | script.js:346-354 | a registration made from a Friday's display key comes back from the table as a `Pendente` row with the waiting note on that Friday, grouped under the same display key |
| Store.ApproveLeave | script.js:358-361 | the row with that id becomes `Folga`, keeping id and notes; no other row changes |
| Store.RejectLeave | script.js:362-365 | the row with that id becomes `Rejeitada`, keeping id and notes; no other row changes |
| Store.RemoveFromFriday | script.js:366-369 | exactly the rows with that id are deleted; the others are unchanged |
| Store.RemoveExactlyOne | script.js:366-369 | in a store with unique ids, removal deletes exactly one row |
| Store.ToggleStatus | script.js:370-373 | toggling deletes the row, exactly as removal does |
| Store.OfferedActions | script.js:310-322 | `Pendente` offers approve, reject and remove; `Folga` offers toggle and remove; any other status offers remove only |
| Store.OfferedTransitions | script.js:310-322 | an offered action either deletes the row or, from `Pendente` only, makes it `Folga` or `Rejeitada`; no other row changes |
| Store.WrongPasswordChangesNothing | script.js:86-89 | a wrong password leaves the leave table unchanged and the action armed |

## Left out

- DOM rendering and HTML markup: table rows, cards, badges, modals, focus timers. Only the data these show is modelled.
- The backend client and its failures on mutations. Upsert, update and delete are their effect on the map. The source ignores the errors these calls return, so the model has no failure case for them.
- `async` ordering and overlapping syncs. The leave query's answer is a parameter of `SyncFromDB`. `Store.FetchedRow` gives the row each stored entry reads back as, but the model does not prove that the answer is exactly the store's rows in the window: the map has no order, and the source does not fix the order of the rows either.
- Parsing `friday_date + 'T00:00:00'` (script.js:176). A leave row carries its date as a calendar date. The parse is taken to return that same local date. `DateFormat.ParseISODate` is a reader for the `toISODate` form, not the host's date-string parser.
- The host `Date` range limits, and local-time and daylight-saving effects. Whole-day steps are exact in the model.
- DateFormat.FormatBR: renders the year as `String(y)`, matching `toLocaleDateString('pt-BR', {year: 'numeric'})` for years 1000 to 9999. Locale output for other years (eras, negative years) is not modelled.
- Status values that are null in the table. A status is always a string here.
- `todayRegistrations` and `totalDepartments` (script.js:473-491). They depend on the wall clock and time-zone parsing, or are display-only.
- Employee insert, edit and delete, including `confirm()`, and photo handling. The source deletes the employee row without first deleting that employee's leave rows.
- The registration form's `parseInt` of the selected option (script.js:431-437) and the "select a Friday first" notice (script.js:403-406). These are DOM input handling.
- The security of the fixed password. The gate only compares against it.
