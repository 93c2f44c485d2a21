/**
 * `syncFromDB`: fetch the roster, fetch the selected month's leaves over a
 * half-open date window, and rebuild `fridayData` from both. The two
 * queries are given as their answers; the backend itself is not modelled.
 */
module Sync {

  import opened Wrappers
  import opened Calendar
  import opened DateFormat
  import opened Fridays
  import opened Leaves

  /** The answer to one query: an error with its message, or data that may be null. */
  datatype Fetch<T> = Failed(message: string) | Fetched(data: Option<seq<T>>)

  /** The page's global state: `employeesDB`, `fridayData`, `selectedFriday`, `currentYear`, `currentMonth`. */
  datatype AppState = AppState(
    employees: seq<Employee>,
    fridayData: FridayData,
    selected: Option<string>,
    year: int,
    month: int)

  /** What a sync leaves behind: the new state and the message shown in the error dialog, if any. */
  datatype SyncOutcome = SyncOutcome(state: AppState, error: Option<string>)

  /** `e.message || "Erro desconhecido"`. */
  function ErrorText(message: string): (t: string)
    ensures message != "" ==> t == message
    ensures message == "" ==> t == "Erro desconhecido"
    ensures t != ""
  {
    if message == "" then "Erro desconhecido" else message
  }

  /** The query bounds `[first of month, first of next month)` in store form. */
  datatype Window = Window(start: string, end: string)

  /** `start = new Date(y, m, 1)`, `end = new Date(y, m + 1, 1)`, both through `toISODate`. */
  function LeaveWindow(y: int, m: int): (w: Window)
    ensures w.start == ToISODate(FirstOfMonth(y, m))
    ensures w.end == ToISODate(NextMonthStart(FirstOfMonth(y, m)))
    ensures 0 <= m < 11 ==> w.end == ToISODate(Date(HostYear(y), m + 2, 1))
    ensures m == 11 ==> w.end == ToISODate(Date(HostYear(y) + 1, 1, 1))
  {
    NextMonthOfFirst(y, m);
    Window(ToISODate(FirstOfMonth(y, m)), ToISODate(FirstOfMonth(y, m + 1)))
  }

  /** Both bounds read back as the first day of the month and of the month after. */
  lemma LeaveWindowDates(y: int, m: int)
    ensures ParseISODate(LeaveWindow(y, m).start) == Some(FirstOfMonth(y, m))
    ensures ParseISODate(LeaveWindow(y, m).end) == Some(NextMonthStart(FirstOfMonth(y, m)))
  {
    ParseToISODate(FirstOfMonth(y, m));
    ParseToISODate(NextMonthStart(FirstOfMonth(y, m)));
  }

  /** `new Date(y, m + 1, 1)` is the first day of the month after `new Date(y, m, 1)`, December included. */
  lemma NextMonthOfFirst(y: int, m: int)
    ensures FirstOfMonth(y, m + 1) == NextMonthStart(FirstOfMonth(y, m))
  {
    var a, b, n := FirstOfMonth(y, m), FirstOfMonth(y, m + 1), NextMonthStart(FirstOfMonth(y, m));
    assert MonthIndex(b) == MonthIndex(a) + 1 == MonthIndex(n);
  }

  /**
   * The window is half-open and covers exactly one month: a calendar date
   * falls inside it if and only if it lies in the requested month, so each
   * leave belongs to exactly one month's query.
   */
  lemma InLeaveWindow(y: int, m: int, e: Date)
    requires ValidDate(e)
    ensures var s := FirstOfMonth(y, m);
      DayNumber(s) <= DayNumber(e) < DayNumber(FirstOfMonth(y, m + 1)) <==> e.year == s.year && e.month == s.month
  {
    var s := FirstOfMonth(y, m);
    var t := FirstOfMonth(y, m + 1);
    NextMonthOfFirst(y, m);
    NextMonthStartNumber(s);
    if MonthIndex(e) < MonthIndex(s) {
      EarlierMonthBefore(e, s);
    } else if MonthIndex(e) == MonthIndex(s) {
      assert e.year == s.year && e.month == s.month;
      NextMonthStartNumber(e);
    } else if MonthIndex(e) == MonthIndex(t) {
      assert e.year == t.year && e.month == t.month;
    } else {
      EarlierMonthBefore(t, e);
    }
  }

  /** The state `syncFromDB` reads its query from. */
  function QueryWindow(st: AppState): Window {
    LeaveWindow(st.year, st.month)
  }

  /**
   * The leave query of the page's month: its bounds read back as the first
   * of that month and of the next, and a stored Friday lies between them
   * exactly when it falls in month `currentMonth + 1` of the host year.
   */
  lemma QueryWindowMonth(st: AppState, e: CalendarDate)
    requires 0 <= st.month < 12
    ensures var s, t := FirstOfMonth(st.year, st.month), FirstOfMonth(st.year, st.month + 1);
      && ParseISODate(QueryWindow(st).start) == Some(s)
      && ParseISODate(QueryWindow(st).end) == Some(t)
      && (DayNumber(s) <= DayNumber(e) < DayNumber(t) <==> e.year == HostYear(st.year) && e.month == st.month + 1)
  {
    LeaveWindowDates(st.year, st.month);
    NextMonthOfFirst(st.year, st.month);
    InLeaveWindow(st.year, st.month, e);
  }

  /**
   * `syncFromDB` given the answers to its two queries. A failed roster query
   * changes nothing. A successful one replaces `employeesDB` at once, even if
   * the leave query then fails. Only when both succeed is `fridayData`
   * rebuilt, from scratch, with the new roster.
   */
  function SyncFromDB(st: AppState, emps: Fetch<Employee>, leaves: Fetch<LeaveRow>): (r: SyncOutcome)
    ensures emps.Failed? ==> r.state == st && r.error == Some(ErrorText(emps.message))
    ensures emps.Fetched? ==> r.state.employees == emps.data.GetOr([])
    ensures emps.Fetched? && leaves.Failed? ==>
      r.state.fridayData == st.fridayData && r.error == Some(ErrorText(leaves.message))
    ensures emps.Fetched? && leaves.Fetched? ==>
      r.error.None? && r.state.fridayData == Group(r.state.employees, leaves.data.GetOr([]))
    ensures r.state.selected == st.selected && r.state.year == st.year && r.state.month == st.month
  {
    match emps
    case Failed(msg) => SyncOutcome(st, Some(ErrorText(msg)))
    case Fetched(data) =>
      var st1 := st.(employees := data.GetOr([]));
      match leaves
      case Failed(msg) => SyncOutcome(st1, Some(ErrorText(msg)))
      case Fetched(ls) => SyncOutcome(st1.(fridayData := Group(st1.employees, ls.GetOr([]))), None)
  }

  /** Two syncs with the same answers and no mutation in between leave the same state. */
  lemma SyncIdempotent(st: AppState, emps: Fetch<Employee>, leaves: Fetch<LeaveRow>)
    ensures var once := SyncFromDB(st, emps, leaves);
      SyncFromDB(once.state, emps, leaves) == once
  {
  }

  /**
   * After a successful sync each key holds exactly the fetched leaves on that
   * Friday, merged and in fetch order; the keys are those Fridays' display forms.
   */
  lemma SyncViewModel(st: AppState, emps: seq<Employee>, leaves: seq<LeaveRow>, k: string)
    ensures var fd := SyncFromDB(st, Fetched(Some(emps)), Fetched(Some(leaves))).state.fridayData;
      && Lookup(fd, k) == MergeAll(emps, RowsOn(leaves, k))
      && (k in Keys(fd) <==> k in FetchedKeys(leaves))
      && Distinct(Keys(fd))
      && Size(fd) == |leaves|
  {
    GroupLookup(emps, leaves, k);
    GroupKeys(emps, leaves);
    GroupCounts(emps, leaves, Pendente);
  }

  /** A record's key turns back into the stored `friday_date` with `toISODateBR`. */
  lemma KeyMapsBack(l: LeaveRow)
    ensures ToISODateBR(KeyOf(l)) == ToISODate(l.fridayDate)
    ensures ParseBR(KeyOf(l)) == Some(l.fridayDate)
  {
    ToISODateBRFormatBR(l.fridayDate);
    ParseFormatBR(l.fridayDate);
  }
}
