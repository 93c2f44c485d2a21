/**
 * Leave statuses, the two fetched tables (`funcionarios` and `folgas`) and
 * the per-Friday view model `fridayData` that `syncFromDB` builds from them.
 */
module Leaves {

  import opened Wrappers
  import opened Calendar
  import opened DateFormat

  /**
   * A leave status as stored: the three the interface knows, in their
   * Portuguese spelling, and any other string the table may hold.
   */
  datatype Status = Pendente | Folga | Rejeitada | Other(name: string)

  function StatusName(s: Status): string {
    match s
    case Pendente => "Pendente"
    case Folga => "Folga"
    case Rejeitada => "Rejeitada"
    case Other(n) => n
  }

  /** `Other` never spells one of the known statuses, so each stored string has one reading. */
  predicate Canonical(s: Status) {
    s.Other? ==> s.name != "Pendente" && s.name != "Folga" && s.name != "Rejeitada"
  }

  /** Reads a stored status string; the string comparisons of the source become case tests. */
  function ParseStatus(t: string): (s: Status)
    ensures Canonical(s) && StatusName(s) == t
  {
    if t == "Pendente" then Pendente
    else if t == "Folga" then Folga
    else if t == "Rejeitada" then Rejeitada
    else Other(t)
  }

  lemma ParseStatusName(s: Status)
    requires Canonical(s)
    ensures ParseStatus(StatusName(s)) == s
  {
  }

  /** A status as read from the table: one reading per stored string. */
  type StoredStatus = s: Status | Canonical(s) witness Pendente

  /**
   * The source tests `status === 'Folga'` and the like on strings; on stored
   * statuses that test agrees with comparing the statuses themselves.
   */
  lemma StoredComparison(s: StoredStatus, known: Status)
    requires IsListed(known)
    ensures s == known <==> StatusName(s) == StatusName(known)
  {
  }

  /** The statuses the Friday cards count and the leave table lists. */
  predicate IsListed(s: Status) {
    s.Pendente? || s.Folga? || s.Rejeitada?
  }

  /** A date that exists in the calendar, as the store's date column holds. */
  type CalendarDate = d: Date | ValidDate(d) witness Date(2000, 1, 1)

  /** A row of `funcionarios`. */
  datatype Employee = Employee(id: int, name: string, email: string, department: string, photoUrl: Option<string>)

  /** A row of `folgas`; `notes` may be null in the table. */
  datatype LeaveRow = LeaveRow(id: int, employeeId: int, fridayDate: CalendarDate, status: StoredStatus, notes: Option<string>)

  /** A merged record of `fridayData`: the leave row joined with its employee, if any. */
  datatype LeaveEntry = LeaveEntry(id: int, employeeId: int, status: StoredStatus, notes: string, employee: Option<Employee>)

  /** One property of the `fridayData` object: a display-date key and its records. */
  datatype Bucket = Bucket(key: string, entries: seq<LeaveEntry>)

  /** `fridayData`, its properties in insertion order (the order `Object.values` visits them). */
  type FridayData = seq<Bucket>

  /** `roster[i]` has id `id` and no later employee does. */
  predicate IsLastWithId(roster: seq<Employee>, i: int, id: int) {
    0 <= i < |roster| && roster[i].id == id && forall j :: i < j < |roster| ==> roster[j].id != id
  }

  /** The position of the last employee with id `id`, or -1 when there is none. */
  function LastIndexWithId(roster: seq<Employee>, id: int): (i: int)
    ensures -1 <= i < |roster|
    ensures i == -1 <==> forall j :: 0 <= j < |roster| ==> roster[j].id != id
    ensures i >= 0 ==> IsLastWithId(roster, i, id)
    decreases |roster|
  {
    if |roster| == 0 then -1
    else if roster[|roster| - 1].id == id then |roster| - 1
    else
      var init := roster[..|roster| - 1];
      var i := LastIndexWithId(init, id);
      assert forall j :: 0 <= j < |init| ==> init[j] == roster[j];
      i
  }

  /**
   * `empMap.get(id)` for `new Map(employeesDB.map(e => [e.id, e]))`: when ids
   * repeat, the later employee overwrote the earlier one, so the last match wins.
   */
  function FindEmployee(roster: seq<Employee>, id: int): (r: Option<Employee>)
    ensures r.None? <==> forall i :: 0 <= i < |roster| ==> roster[i].id != id
    ensures r.Some? ==> exists i :: IsLastWithId(roster, i, id) && roster[i] == r.value
  {
    var i := LastIndexWithId(roster, id);
    if i < 0 then None else Some(roster[i])
  }

  /** The view-model key of a leave: its Friday in display form. */
  function KeyOf(l: LeaveRow): string {
    FormatBR(l.fridayDate)
  }

  /** The record pushed for leave `l`: `notes || ''`, employee looked up by id. */
  function Merge(roster: seq<Employee>, l: LeaveRow): (e: LeaveEntry)
    ensures e.id == l.id && e.employeeId == l.employeeId && e.status == l.status
    ensures l.notes.None? ==> e.notes == ""
    ensures l.notes.Some? ==> e.notes == l.notes.value
    ensures e.employee.None? <==> forall i :: 0 <= i < |roster| ==> roster[i].id != l.employeeId
    ensures e.employee.Some? ==> e.employee.value in roster && e.employee.value.id == l.employeeId
  {
    LeaveEntry(l.id, l.employeeId, l.status, l.notes.GetOr(""), FindEmployee(roster, l.employeeId))
  }

  /** The keys of the view model, in insertion order. */
  function Keys(fd: FridayData): seq<string>
    decreases |fd|
  {
    if |fd| == 0 then [] else [fd[0].key] + Keys(fd[1..])
  }

  predicate Distinct(ks: seq<string>) {
    forall i, j :: 0 <= i < j < |ks| ==> ks[i] != ks[j]
  }

  /** `fridayData[key] || []`. */
  function Lookup(fd: FridayData, key: string): seq<LeaveEntry>
    decreases |fd|
  {
    if |fd| == 0 then [] else if fd[0].key == key then fd[0].entries else Lookup(fd[1..], key)
  }

  /** `if (!fridayData[key]) fridayData[key] = []; fridayData[key].push(e)`. */
  function Insert(fd: FridayData, key: string, e: LeaveEntry): FridayData
    decreases |fd|
  {
    if |fd| == 0 then [Bucket(key, [e])]
    else if fd[0].key == key then [fd[0].(entries := fd[0].entries + [e])] + fd[1..]
    else [fd[0]] + Insert(fd[1..], key, e)
  }

  /** The grouping loop of `syncFromDB`: each fetched leave, in order, pushed under its key. */
  function Group(roster: seq<Employee>, leaves: seq<LeaveRow>): FridayData
    decreases |leaves|
  {
    if |leaves| == 0 then []
    else
      var l := leaves[|leaves| - 1];
      Insert(Group(roster, leaves[..|leaves| - 1]), KeyOf(l), Merge(roster, l))
  }

  /** The fetched leaves whose Friday has display form `key`, in fetch order. */
  function RowsOn(leaves: seq<LeaveRow>, key: string): seq<LeaveRow>
    decreases |leaves|
  {
    if |leaves| == 0 then []
    else
      var l := leaves[|leaves| - 1];
      RowsOn(leaves[..|leaves| - 1], key) + (if KeyOf(l) == key then [l] else [])
  }

  function MergeAll(roster: seq<Employee>, rows: seq<LeaveRow>): (r: seq<LeaveEntry>)
    ensures |r| == |rows|
    ensures forall i :: 0 <= i < |rows| ==> r[i] == Merge(roster, rows[i])
  {
    seq(|rows|, i requires 0 <= i < |rows| => Merge(roster, rows[i]))
  }

  /** Number of records with status `s`. */
  function CountStatus(entries: seq<LeaveEntry>, s: Status): nat
    decreases |entries|
  {
    if |entries| == 0 then 0
    else CountStatus(entries[..|entries| - 1], s) + (if entries[|entries| - 1].status == s then 1 else 0)
  }

  /** Number of records with status `s` summed over every key of the view model. */
  function CountAllStatus(fd: FridayData, s: Status): nat
    decreases |fd|
  {
    if |fd| == 0 then 0 else CountStatus(fd[0].entries, s) + CountAllStatus(fd[1..], s)
  }

  function RowCountStatus(leaves: seq<LeaveRow>, s: Status): nat
    decreases |leaves|
  {
    if |leaves| == 0 then 0
    else RowCountStatus(leaves[..|leaves| - 1], s) + (if leaves[|leaves| - 1].status == s then 1 else 0)
  }

  /** Total number of records over every key of the view model. */
  function Size(fd: FridayData): nat
    decreases |fd|
  {
    if |fd| == 0 then 0 else |fd[0].entries| + Size(fd[1..])
  }

  /** Pushing under a key adds the record at the end of that key's list and nowhere else. */
  lemma {:induction false} LookupInsert(fd: FridayData, key: string, e: LeaveEntry, k: string)
    ensures Lookup(Insert(fd, key, e), k) == Lookup(fd, k) + (if k == key then [e] else [])
    decreases |fd|
  {
    if |fd| > 0 && fd[0].key != key {
      LookupInsert(fd[1..], key, e, k);
      assert Insert(fd, key, e)[1..] == Insert(fd[1..], key, e);
    }
  }

  /** Pushing under a key appends that key when it is new and otherwise keeps the keys. */
  lemma {:induction false} KeysInsert(fd: FridayData, key: string, e: LeaveEntry)
    ensures Keys(Insert(fd, key, e)) == Keys(fd) + (if key in Keys(fd) then [] else [key])
    decreases |fd|
  {
    if |fd| > 0 {
      var r := Insert(fd, key, e);
      if fd[0].key == key {
        assert r[1..] == fd[1..];
      } else {
        KeysInsert(fd[1..], key, e);
        assert r[1..] == Insert(fd[1..], key, e);
      }
    }
  }

  lemma DistinctAppend(ks: seq<string>, k: string)
    requires Distinct(ks)
    ensures Distinct(ks + (if k in ks then [] else [k]))
  {
  }

  /** Pushing a record raises the count of its status by one and leaves the others. */
  lemma {:induction false} CountInsert(fd: FridayData, key: string, e: LeaveEntry, s: Status)
    ensures CountAllStatus(Insert(fd, key, e), s) == CountAllStatus(fd, s) + (if e.status == s then 1 else 0)
    ensures Size(Insert(fd, key, e)) == Size(fd) + 1
    decreases |fd|
  {
    var r := Insert(fd, key, e);
    if |fd| == 0 {
      assert [e][..0] == [];
      assert CountStatus([e], s) == (if e.status == s then 1 else 0);
      assert r[1..] == [];
      assert CountAllStatus(r[1..], s) == 0 && Size(r[1..]) == 0;
    } else if fd[0].key == key {
      var es := fd[0].entries + [e];
      assert es[..|es| - 1] == fd[0].entries;
      assert r[1..] == fd[1..];
    } else {
      CountInsert(fd[1..], key, e, s);
      assert r[1..] == Insert(fd[1..], key, e);
    }
  }

  /**
   * Grouping keeps every fetched leave in fetch order under its key: the
   * records under a key are the merged leaves whose Friday has that display form.
   */
  lemma {:induction false} GroupLookup(roster: seq<Employee>, leaves: seq<LeaveRow>, k: string)
    ensures Lookup(Group(roster, leaves), k) == MergeAll(roster, RowsOn(leaves, k))
    decreases |leaves|
  {
    if |leaves| > 0 {
      var init := leaves[..|leaves| - 1];
      var l := leaves[|leaves| - 1];
      GroupLookup(roster, init, k);
      LookupInsert(Group(roster, init), KeyOf(l), Merge(roster, l), k);
    }
  }

  /** The display keys of the fetched leaves, in fetch order, repeats included. */
  function FetchedKeys(leaves: seq<LeaveRow>): (ks: seq<string>)
    ensures |ks| == |leaves|
    ensures forall i :: 0 <= i < |leaves| ==> ks[i] == KeyOf(leaves[i])
  {
    seq(|leaves|, i requires 0 <= i < |leaves| => KeyOf(leaves[i]))
  }

  /** The keys of the grouped view model are the display forms of the fetched Fridays, each once. */
  lemma {:induction false} GroupKeys(roster: seq<Employee>, leaves: seq<LeaveRow>)
    ensures Distinct(Keys(Group(roster, leaves)))
    ensures forall k :: k in Keys(Group(roster, leaves)) <==> k in FetchedKeys(leaves)
    decreases |leaves|
  {
    if |leaves| > 0 {
      GroupKeys(roster, leaves[..|leaves| - 1]);
      GroupKeysStep(roster, leaves);
    }
  }

  lemma GroupKeysStep(roster: seq<Employee>, leaves: seq<LeaveRow>)
    requires |leaves| > 0
    requires var init := leaves[..|leaves| - 1];
      && Distinct(Keys(Group(roster, init)))
      && forall k :: k in Keys(Group(roster, init)) <==> k in FetchedKeys(init)
    ensures Distinct(Keys(Group(roster, leaves)))
    ensures forall k :: k in Keys(Group(roster, leaves)) <==> k in FetchedKeys(leaves)
  {
    var init := leaves[..|leaves| - 1];
    var l := leaves[|leaves| - 1];
    var g := Group(roster, init);
    var key := KeyOf(l);
    assert Group(roster, leaves) == Insert(g, key, Merge(roster, l));
    KeysInsert(g, key, Merge(roster, l));
    DistinctAppend(Keys(g), key);
    assert FetchedKeys(leaves) == FetchedKeys(init) + [key];
  }

  /** Every fetched leave is counted once: per status, and in total. */
  lemma {:induction false} GroupCounts(roster: seq<Employee>, leaves: seq<LeaveRow>, s: Status)
    ensures CountAllStatus(Group(roster, leaves), s) == RowCountStatus(leaves, s)
    ensures Size(Group(roster, leaves)) == |leaves|
    decreases |leaves|
  {
    if |leaves| > 0 {
      var init := leaves[..|leaves| - 1];
      var l := leaves[|leaves| - 1];
      GroupCounts(roster, init, s);
      CountInsert(Group(roster, init), KeyOf(l), Merge(roster, l), s);
    }
  }
}
