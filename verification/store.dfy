/**
 * The `folgas` table as the leave actions see it: a map from the uniqueness
 * pair `(employee_id, friday_date)` to the row's id, status and notes, with
 * the id sequence that numbers new rows. Each action is its effect on the map.
 */
module Store {

  import opened Wrappers
  import opened DateFormat
  import opened Leaves
  import Gate

  /** The upsert conflict target `employee_id,friday_date`; the date in store form. */
  datatype LeaveKey = LeaveKey(employeeId: int, fridayDate: string)

  datatype LeaveRecord = LeaveRecord(id: int, status: StoredStatus, notes: string)

  datatype LeaveStore = LeaveStore(rows: map<LeaveKey, LeaveRecord>, nextId: int)

  /** The note every new registration carries. */
  const AwaitingApproval: string := "Aguardando aprova\U{E7}\U{E3}o"

  /** Row ids are unique and below the next id the table will hand out. */
  predicate Valid(s: LeaveStore) {
    && (forall k :: k in s.rows ==> s.rows[k].id < s.nextId)
    && (forall k1, k2 :: k1 in s.rows && k2 in s.rows && s.rows[k1].id == s.rows[k2].id ==> k1 == k2)
  }

  /**
   * `dbUpsertLeave(employeeId, fridayBR)`: on a conflict the existing row is
   * set back to `Pendente` with the waiting note and keeps its id; otherwise
   * a new row with a fresh id is inserted.
   */
  function UpsertLeave(s: LeaveStore, employeeId: int, fridayBR: string): (r: LeaveStore)
    ensures var key := LeaveKey(employeeId, ToISODateBR(fridayBR));
      && r.rows.Keys == s.rows.Keys + {key}
      && r.rows[key].status == Pendente && r.rows[key].notes == AwaitingApproval
      && (key in s.rows ==> r.rows[key].id == s.rows[key].id && r.nextId == s.nextId)
      && (key !in s.rows ==> r.rows[key].id == s.nextId && r.nextId == s.nextId + 1)
      && (forall k :: k in s.rows && k != key ==> r.rows[k] == s.rows[k])
    ensures Valid(s) ==> Valid(r)
  {
    var key := LeaveKey(employeeId, ToISODateBR(fridayBR));
    if key in s.rows then
      LeaveStore(s.rows[key := s.rows[key].(status := Pendente, notes := AwaitingApproval)], s.nextId)
    else
      LeaveStore(s.rows[key := LeaveRecord(s.nextId, Pendente, AwaitingApproval)], s.nextId + 1)
  }

  /** Registering twice for the same pair leaves the same single row as registering once. */
  lemma UpsertTwice(s: LeaveStore, employeeId: int, fridayBR: string)
    ensures UpsertLeave(UpsertLeave(s, employeeId, fridayBR), employeeId, fridayBR) == UpsertLeave(s, employeeId, fridayBR)
  {
    var once := UpsertLeave(s, employeeId, fridayBR);
    var key := LeaveKey(employeeId, ToISODateBR(fridayBR));
    assert once.rows[key := once.rows[key].(status := Pendente, notes := AwaitingApproval)] == once.rows;
  }

  /** Registering from a Friday's display key stores that Friday's store-form date. */
  lemma UpsertFromKey(s: LeaveStore, employeeId: int, d: CalendarDate)
    ensures LeaveKey(employeeId, ToISODate(d)) in UpsertLeave(s, employeeId, FormatBR(d)).rows
  {
    ToISODateBRFormatBR(d);
  }

  /**
   * The `folgas` row a query returns for a stored entry; absent when the
   * date column does not hold a calendar date in store form.
   */
  function FetchedRow(k: LeaveKey, rec: LeaveRecord): (r: Option<LeaveRow>)
    ensures r.Some? <==> ParseISODate(k.fridayDate).Some?
    ensures r.Some? ==>
      && r.value.id == rec.id && r.value.employeeId == k.employeeId
      && r.value.status == rec.status && r.value.notes == Some(rec.notes)
      && ParseISODate(k.fridayDate) == Some(r.value.fridayDate)
  {
    match ParseISODate(k.fridayDate)
    case None => None
    case Some(d) => Some(LeaveRow(rec.id, k.employeeId, d, rec.status, Some(rec.notes)))
  }

  /**
   * A registration made from a Friday's display key comes back from the
   * table as a `Pendente` row on that Friday, grouped under the same key.
   */
  lemma RegisteredRowFetched(s: LeaveStore, employeeId: int, d: CalendarDate)
    ensures var r := UpsertLeave(s, employeeId, FormatBR(d));
      var key := LeaveKey(employeeId, ToISODate(d));
      && key in r.rows
      && FetchedRow(key, r.rows[key]) == Some(LeaveRow(r.rows[key].id, employeeId, d, Pendente, Some(AwaitingApproval)))
      && KeyOf(FetchedRow(key, r.rows[key]).value) == FormatBR(d)
  {
    ToISODateBRFormatBR(d);
    ParseToISODate(d);
  }

  /** `update({status}).eq('id', id)`: every row with that id gets the status; nothing else changes. */
  function SetStatus(s: LeaveStore, id: int, status: StoredStatus): (r: LeaveStore)
    ensures r.rows.Keys == s.rows.Keys && r.nextId == s.nextId
    ensures forall k :: k in s.rows && s.rows[k].id == id ==> r.rows[k] == s.rows[k].(status := status)
    ensures forall k :: k in s.rows && s.rows[k].id != id ==> r.rows[k] == s.rows[k]
  {
    LeaveStore(map k | k in s.rows :: if s.rows[k].id == id then s.rows[k].(status := status) else s.rows[k], s.nextId)
  }

  /** `_approveLeave(id)`: the row becomes `Folga`, keeping its id and notes. */
  function ApproveLeave(s: LeaveStore, id: int): (r: LeaveStore)
    ensures r.rows.Keys == s.rows.Keys && r.nextId == s.nextId
    ensures forall k :: k in s.rows && s.rows[k].id == id ==>
      r.rows[k].status == Folga && r.rows[k].id == id && r.rows[k].notes == s.rows[k].notes
    ensures forall k :: k in s.rows && s.rows[k].id != id ==> r.rows[k] == s.rows[k]
    ensures Valid(s) ==> Valid(r)
  {
    SetStatus(s, id, Folga)
  }

  /** `_rejectLeave(id)`: the row becomes `Rejeitada`, keeping its id and notes. */
  function RejectLeave(s: LeaveStore, id: int): (r: LeaveStore)
    ensures r.rows.Keys == s.rows.Keys && r.nextId == s.nextId
    ensures forall k :: k in s.rows && s.rows[k].id == id ==>
      r.rows[k].status == Rejeitada && r.rows[k].id == id && r.rows[k].notes == s.rows[k].notes
    ensures forall k :: k in s.rows && s.rows[k].id != id ==> r.rows[k] == s.rows[k]
    ensures Valid(s) ==> Valid(r)
  {
    SetStatus(s, id, Rejeitada)
  }

  /** `_removeFromFriday(id)`: `delete().eq('id', id)`. */
  function RemoveFromFriday(s: LeaveStore, id: int): (r: LeaveStore)
    ensures forall k :: k in r.rows <==> k in s.rows && s.rows[k].id != id
    ensures forall k :: k in r.rows ==> r.rows[k] == s.rows[k]
    ensures r.nextId == s.nextId
    ensures Valid(s) ==> Valid(r)
  {
    LeaveStore(map k | k in s.rows && s.rows[k].id != id :: s.rows[k], s.nextId)
  }

  /** In a valid store a removal deletes exactly the one row with that id. */
  lemma RemoveExactlyOne(s: LeaveStore, key: LeaveKey)
    requires Valid(s) && key in s.rows
    ensures RemoveFromFriday(s, s.rows[key].id).rows.Keys == s.rows.Keys - {key}
    ensures |RemoveFromFriday(s, s.rows[key].id).rows| == |s.rows| - 1
  {
    var r := RemoveFromFriday(s, s.rows[key].id);
    assert r.rows.Keys == s.rows.Keys - {key};
  }

  /**
   * `_toggleStatus(id)`, behind the "Remover folga" button: it deletes the
   * row, exactly as removal does, rather than flipping its status.
   */
  function ToggleStatus(s: LeaveStore, id: int): (r: LeaveStore)
    ensures r == RemoveFromFriday(s, id)
    ensures forall k :: k in s.rows && s.rows[k].id == id ==> k !in r.rows
  {
    LeaveStore(map k | k in s.rows && s.rows[k].id != id :: s.rows[k], s.nextId)
  }

  /** The buttons of a table row. */
  datatype LeaveAction = Approve | Reject | Remove | Toggle

  /** The actions offered for a row with status `st`. */
  function OfferedActions(st: Status): (r: seq<LeaveAction>)
    ensures Remove in r
    ensures Approve in r <==> st == Pendente
    ensures Reject in r <==> st == Pendente
    ensures Toggle in r <==> st == Folga
    ensures |r| == (if st == Pendente then 3 else if st == Folga then 2 else 1)
  {
    if st == Pendente then [Approve, Reject, Remove]
    else if st == Folga then [Toggle, Remove]
    else [Remove]
  }

  /** Runs the action behind a button on the row with id `id`. */
  function Apply(s: LeaveStore, a: LeaveAction, id: int): LeaveStore {
    match a
    case Approve => ApproveLeave(s, id)
    case Reject => RejectLeave(s, id)
    case Remove => RemoveFromFriday(s, id)
    case Toggle => ToggleStatus(s, id)
  }

  /**
   * The workflow the buttons allow: from `Pendente` a row may become `Folga`
   * or `Rejeitada` or go away; from any other status it can only go away.
   * No offered action touches another row.
   */
  lemma OfferedTransitions(s: LeaveStore, key: LeaveKey, a: LeaveAction)
    requires Valid(s) && key in s.rows && a in OfferedActions(s.rows[key].status)
    ensures var r := Apply(s, a, s.rows[key].id);
      && (key !in r.rows ||
          (s.rows[key].status == Pendente && r.rows[key].status in {Folga, Rejeitada}))
      && (forall k :: k in s.rows && k != key ==> k in r.rows && r.rows[k] == s.rows[k])
  {
  }

  /** The actions of the password modal that reach the leave table. */
  function Execute(s: LeaveStore, invoked: Option<(LeaveAction, int)>): LeaveStore {
    match invoked
    case None => s
    case Some(p) => Apply(s, p.0, p.1)
  }

  /** A wrong password leaves the leave table as it was; the action stays armed for the next try. */
  lemma WrongPasswordChangesNothing(s: LeaveStore, g: Gate.GateState<(LeaveAction, int)>, input: string)
    requires input != Gate.Password
    ensures Execute(s, Gate.Submit(g, input).invoked) == s
    ensures Gate.Submit(g, input).state.pending == g.pending
  {
  }
}
