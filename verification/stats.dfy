/**
 * The counters of `updateStats`, the per-Friday card count of
 * `renderFridaysGrid`, the row filter of `renderLeavesTable` and the choice
 * list of `populateEmployeeSelect`, all read from the page state.
 */
module Stats {

  import opened Wrappers
  import opened Leaves
  import opened Sync
  import Calendar
  import Html

  /** The five counters `updateStats` writes into the page. */
  datatype Counters = Counters(total: int, onLeave: int, pending: int, working: int, headerPending: int)

  /** `selectedFriday ? ...`: a missing or empty selection is falsy. */
  predicate HasSelection(selected: Option<string>) {
    selected.Some? && selected.value != ""
  }

  /** `selectedFriday ? (fridayData[selectedFriday] || []) : []`. */
  function LeavesToday(st: AppState): seq<LeaveEntry> {
    if HasSelection(st.selected) then Lookup(st.fridayData, st.selected.value) else []
  }

  /** `Math.max(0, a)`. */
  function Max0(a: int): int {
    if a < 0 then 0 else a
  }

  /** `updateStats`. */
  function UpdateStats(st: AppState): (c: Counters)
    ensures c.total == |st.employees|
    ensures !HasSelection(st.selected) ==> c.onLeave == 0 && c.pending == 0 && c.working == c.total
    ensures 0 <= c.working <= c.total
    ensures c.onLeave + c.pending <= c.total ==> c.working + c.onLeave + c.pending == c.total
    ensures c.onLeave + c.pending > c.total ==> c.working == 0
    ensures c.headerPending == CountAllStatus(st.fridayData, Pendente)
  {
    var today := LeavesToday(st);
    var total := |st.employees|;
    var onLeave := CountStatus(today, Folga);
    var pending := CountStatus(today, Pendente);
    Counters(total, onLeave, pending, Max0(total - onLeave - pending), CountAllStatus(st.fridayData, Pendente))
  }

  /** The counters of the selected Friday count its records with status `Folga` and `Pendente`. */
  lemma {:induction false} SelectedCounts(st: AppState)
    requires HasSelection(st.selected)
    ensures UpdateStats(st).onLeave == |Filter(LeavesToday(st), Folga)|
    ensures UpdateStats(st).pending == |Filter(LeavesToday(st), Pendente)|
    ensures UpdateStats(st).onLeave + UpdateStats(st).pending <= |LeavesToday(st)|
  {
    CountIsFilter(LeavesToday(st), Folga);
    CountIsFilter(LeavesToday(st), Pendente);
    CountTwo(LeavesToday(st));
  }

  /** The records with status `s`, in order. */
  function Filter(entries: seq<LeaveEntry>, s: Status): (r: seq<LeaveEntry>)
    ensures forall i :: 0 <= i < |r| ==> r[i].status == s && r[i] in entries
    decreases |entries|
  {
    if |entries| == 0 then []
    else Filter(entries[..|entries| - 1], s) + (if entries[|entries| - 1].status == s then [entries[|entries| - 1]] else [])
  }

  lemma {:induction false} CountIsFilter(entries: seq<LeaveEntry>, s: Status)
    ensures CountStatus(entries, s) == |Filter(entries, s)|
    decreases |entries|
  {
    if |entries| > 0 {
      CountIsFilter(entries[..|entries| - 1], s);
    }
  }

  lemma {:induction false} CountTwo(entries: seq<LeaveEntry>)
    ensures CountStatus(entries, Folga) + CountStatus(entries, Pendente) <= |entries|
    decreases |entries|
  {
    if |entries| > 0 {
      CountTwo(entries[..|entries| - 1]);
    }
  }

  /** The header badge counts at least the pending records of any one key. */
  lemma {:induction false} HeaderAtLeastSelected(fd: FridayData, key: string)
    ensures CountStatus(Lookup(fd, key), Pendente) <= CountAllStatus(fd, Pendente)
    decreases |fd|
  {
    if |fd| > 0 && fd[0].key != key {
      HeaderAtLeastSelected(fd[1..], key);
    }
  }

  /** The filter of the card count and the leave table: `Folga`, `Pendente` or `Rejeitada`. */
  function ListedOnly(entries: seq<LeaveEntry>): (r: seq<LeaveEntry>)
    ensures |r| <= |entries|
    ensures forall i :: 0 <= i < |r| ==> IsListed(r[i].status) && r[i] in entries
    ensures forall e :: e in entries && IsListed(e.status) ==> e in r
    decreases |entries|
  {
    if |entries| == 0 then []
    else
      var init := entries[..|entries| - 1];
      var last := entries[|entries| - 1];
      var r := ListedOnly(init) + (if IsListed(last.status) then [last] else []);
      assert forall e :: e in entries ==> e in init || e == last;
      r
  }

  /** The number on the card of Friday `key`. */
  function CardCount(fd: FridayData, key: string): nat {
    |ListedOnly(Lookup(fd, key))|
  }

  /** The records `renderLeavesTable` lists: nothing without a selection. */
  function TableRows(st: AppState): seq<LeaveEntry> {
    if HasSelection(st.selected) then ListedOnly(Lookup(st.fridayData, st.selected.value)) else []
  }

  /** The card of the selected Friday shows the number of table rows, and it bounds the two counters. */
  lemma {:induction false} CardMatchesTable(st: AppState)
    requires HasSelection(st.selected)
    ensures CardCount(st.fridayData, st.selected.value) == |TableRows(st)|
    ensures UpdateStats(st).onLeave + UpdateStats(st).pending <= |TableRows(st)|
  {
    ListedCounts(LeavesToday(st));
  }

  /** The card count is the sum of the three listed statuses; records of any other status are ignored. */
  lemma {:induction false} ListedCounts(entries: seq<LeaveEntry>)
    ensures |ListedOnly(entries)| ==
      CountStatus(entries, Folga) + CountStatus(entries, Pendente) + CountStatus(entries, Rejeitada)
    decreases |entries|
  {
    if |entries| > 0 {
      ListedCounts(entries[..|entries| - 1]);
    }
  }

  /** An `<option>` of the employee select. */
  datatype Choice = Prompt(text: string) | EmployeeChoice(employeeId: int, text: string)

  const SelectPrompt: string := "Selecione…"
  const AllRegistered: string := "Todos já estão registrados nesta sexta."

  /** The employee ids already registered on the selected Friday: the `registered` set. */
  function Registered(st: AppState): set<int> {
    set e | e in LeavesToday(st) :: e.employeeId
  }

  /** The roster employees whose id is not in `registered`, in roster order. */
  function Unregistered(roster: seq<Employee>, registered: set<int>): (r: seq<Employee>)
    ensures |r| <= |roster|
    ensures forall e :: e in r <==> e in roster && e.id !in registered
    decreases |roster|
  {
    if |roster| == 0 then []
    else
      var init := roster[..|roster| - 1];
      var last := roster[|roster| - 1];
      assert forall e :: e in roster <==> e in init || e == last;
      Unregistered(init, registered) + (if last.id in registered then [] else [last])
  }

  /** The label of one employee option: escaped name, ` - `, escaped department. */
  function ChoiceLabel(e: Employee): string {
    Html.EscapeHtml(e.name) + " - " + Html.EscapeHtml(e.department)
  }

  /**
   * `populateEmployeeSelect`: the prompt followed by one option per employee
   * not yet registered on the selected Friday; when that leaves only the
   * prompt, the single "all registered" option instead.
   */
  function EmployeeChoices(st: AppState): (r: seq<Choice>)
    ensures |r| >= 1 && r[0].Prompt?
    ensures |r| == 1 <==> forall e :: e in st.employees ==> e.id in Registered(st)
    ensures |r| == 1 ==> r[0].text == AllRegistered
    ensures |r| > 1 ==> r[0].text == SelectPrompt
    ensures var avail := Unregistered(st.employees, Registered(st));
      |r| == |avail| + 1 &&
      forall i :: 0 <= i < |avail| ==> r[i + 1] == EmployeeChoice(avail[i].id, ChoiceLabel(avail[i]))
  {
    var avail := Unregistered(st.employees, Registered(st));
    if |avail| == 0 then
      [Prompt(AllRegistered)]
    else
      assert avail[0] in st.employees && avail[0].id !in Registered(st);
      [Prompt(SelectPrompt)] + seq(|avail|, i requires 0 <= i < |avail| => EmployeeChoice(avail[i].id, ChoiceLabel(avail[i])))
  }

  /** A worked case: roster Ana and Bruno, Friday 05/09/2025 selected, nothing registered: both work. */
  lemma NothingRegisteredScenario()
    ensures var roster := [Employee(1, "Ana", "", "", None), Employee(2, "Bruno", "", "", None)];
      UpdateStats(AppState(roster, [], Some("05/09/2025"), 2025, 8)) == Counters(2, 0, 0, 2, 0)
  {
  }

  /** Continuing the case: a sync returning one pending registration makes the header badge show one. */
  lemma OnePendingScenario()
    ensures var roster := [Employee(1, "Ana", "", "", None), Employee(2, "Bruno", "", "", None)];
      var row := LeaveRow(10, 1, Calendar.Date(2025, 9, 5), Pendente, Some("Aguardando"));
      var st := AppState(roster, [], Some("05/09/2025"), 2025, 8);
      UpdateStats(SyncFromDB(st, Fetched(Some(roster)), Fetched(Some([row]))).state).headerPending == 1
  {
    var roster := [Employee(1, "Ana", "", "", None), Employee(2, "Bruno", "", "", None)];
    var row := LeaveRow(10, 1, Calendar.Date(2025, 9, 5), Pendente, Some("Aguardando"));
    var st := AppState(roster, [], Some("05/09/2025"), 2025, 8);
    var synced := SyncFromDB(st, Fetched(Some(roster)), Fetched(Some([row]))).state;
    assert synced.fridayData == Group(roster, [row]);
    GroupCounts(roster, [row], Pendente);
    assert [row][..0] == [];
    assert RowCountStatus([row], Pendente) == 1;
  }
}
