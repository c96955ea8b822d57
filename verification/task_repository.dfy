/** The persistence gateway over the `tasks` table. The table is an abstract store:
    a map from id to row plus the id counter the database hands out on insert.
    `Save` is an insert with no condition; each other operation applies a fixed
    condition over the table, as the Go code states it. A driver failure is a
    parameter (`fault`) of each call. */
module TaskRepository {
  import opened Basics
  import opened Domain

  /** A stored row of the `tasks` table. */
  datatype Row = Row(
    id: u64,
    userId: u64,
    title: string,
    description: string,
    status: TaskStatus,
    deadline: Option<Time>,
    createdDate: Time,
    updatedDate: Time,
    deletedDate: Option<Time>)

  /** The table and the next id its sequence will issue. */
  datatype Store = Store(rows: map<nat, Row>, nextId: nat)

  datatype DbError =
    | NoMoreRows      // a single-row query matched nothing
    | DuplicateKey    // an insert hit an id already in the table
    | IdsExhausted    // the id sequence has no 64-bit value left
    | DriverFailure   // connection or statement failure reported by the driver

  /** Every row is stored under its own id. */
  predicate KeyedById(rows: map<nat, Row>)
  {
    forall k :: k in rows ==> rows[k].id == k
  }

  /** The table invariant: rows are keyed by their non-zero id and the sequence starts at 1. */
  predicate Valid(s: Store)
  {
    && KeyedById(s.rows)
    && (forall k :: k in s.rows ==> 1 <= k)
    && 1 <= s.nextId
  }

  // ----- Mapping between the domain entity and the row ------------------------

  function MapDomainToModel(t: Task): Row
  {
    Row(t.id, t.userId, t.title, t.description, t.status, t.deadline,
        t.createdDate, t.updatedDate, t.deletedDate)
  }

  /** Row to task; mapping the task back gives the same row. */
  function MapModelToDomain(r: Row): (t: Task)
    ensures MapDomainToModel(t) == r
  {
    Task(r.id, r.userId, r.title, r.description, r.status, r.deadline,
         r.createdDate, r.updatedDate, r.deletedDate)
  }

  /** The other direction of the round trip: task to row and back is the identity. */
  lemma DomainModelRoundTrip(t: Task)
    ensures MapModelToDomain(MapDomainToModel(t)) == t
  {
  }

  /** Appends each row's task in turn: same length, same order, element by element. */
  function MapModelToDomainCollection(ts: seq<Row>): (r: seq<Task>)
    ensures |r| == |ts|
    ensures forall i :: 0 <= i < |ts| ==> r[i] == MapModelToDomain(ts[i])
  {
    if ts == [] then []
    else MapModelToDomainCollection(ts[..|ts| - 1]) + [MapModelToDomain(ts[|ts| - 1])]
  }

  // ----- Query conditions -----------------------------------------------------

  /** A `db.Cond`: equality on `id` and/or `user_id`, and optionally `deleted_date IS NULL`. */
  datatype Cond = Cond(id: Option<u64>, userId: Option<u64>, deletedIsNull: bool)

  predicate Matches(c: Cond, r: Row)
  {
    && (c.id.Some? ==> r.id == c.id.value)
    && (c.userId.Some? ==> r.userId == c.userId.value)
    && (c.deletedIsNull ==> r.deletedDate.None?)
  }

  /** The matching rows whose id lies in [lo, hi), in ascending id order. */
  function Scan(rows: map<nat, Row>, c: Cond, lo: nat, hi: nat): (found: seq<Row>)
    requires KeyedById(rows)
    decreases hi - lo
    ensures forall i :: 0 <= i < |found| ==>
              lo <= found[i].id < hi && found[i].id in rows
              && rows[found[i].id] == found[i] && Matches(c, found[i])
    ensures forall k :: lo <= k < hi && k in rows && Matches(c, rows[k]) ==> rows[k] in found
    ensures forall i, j :: 0 <= i < j < |found| ==> found[i].id < found[j].id
  {
    if hi <= lo then []
    else
      var rest := Scan(rows, c, lo + 1, hi);
      if lo in rows && Matches(c, rows[lo]) then [rows[lo]] + rest else rest
  }

  /** `Find(cond)`: exactly the rows of the table that meet the condition, each
      once, in ascending id order (the model's choice of store order). */
  function Find(s: Store, c: Cond): (found: seq<Row>)
    requires Valid(s)
    ensures forall i :: 0 <= i < |found| ==>
              found[i].id in s.rows && s.rows[found[i].id] == found[i] && Matches(c, found[i])
    ensures forall k :: k in s.rows && Matches(c, s.rows[k]) ==> s.rows[k] in found
    ensures forall i, j :: 0 <= i < j < |found| ==> found[i].id < found[j].id
  {
    Scan(s.rows, c, 0, MaxU64 + 1)
  }

  /** `Find(cond).Delete()`: drops every matching row. */
  function DeleteWhere(rows: map<nat, Row>, c: Cond): map<nat, Row>
  {
    map k | k in rows && !Matches(c, rows[k]) :: rows[k]
  }

  /** `Find(cond).Update({"status": st})`: rewrites the status of every matching row. */
  function UpdateStatusWhere(rows: map<nat, Row>, c: Cond, st: TaskStatus): map<nat, Row>
  {
    map k | k in rows :: if Matches(c, rows[k]) then rows[k].(status := st) else rows[k]
  }

  // ----- Repository operations ------------------------------------------------

  datatype Insertion = Insertion(task: Task, err: Option<DbError>, store: Store)
  datatype Mutation = Mutation(err: Option<DbError>, store: Store)

  /** Inserts a task stamped with `now` as both creation and update date. A zero id
      is left to the sequence; a non-zero id is inserted as given. On error the
      zero task comes back and no row changes. */
  function Save(s: Store, t: Task, now: Time, fault: bool): (r: Insertion)
    requires Valid(s)
    ensures Valid(r.store)
    ensures r.err.Some? ==> r.task == ZeroTask && r.store.rows == s.rows
    ensures r.err.None? ==>
              && !fault
              && r.task == t.(id := r.task.id, createdDate := now, updatedDate := now)
              && r.task.id !in s.rows
              && r.store.rows == s.rows[r.task.id := MapDomainToModel(r.task)]
              && (t.id != 0 ==> r.task.id == t.id)
              && (t.id == 0 ==> r.task.id == s.nextId && r.store.nextId == s.nextId + 1)
              && (t.id != 0 ==> r.store.nextId == s.nextId)
    ensures r.err.None? <==>
              && !fault
              && (t.id != 0 ==> t.id !in s.rows)
              && (t.id == 0 ==> s.nextId <= MaxU64 && s.nextId !in s.rows)
  {
    if fault then Insertion(ZeroTask, Some(DriverFailure), s)
    else
      var tsk := MapDomainToModel(t).(createdDate := now, updatedDate := now);
      if t.id != 0 then
        if t.id in s.rows then Insertion(ZeroTask, Some(DuplicateKey), s)
        else Insertion(MapModelToDomain(tsk), None, s.(rows := s.rows[t.id := tsk]))
      else if s.nextId > MaxU64 then Insertion(ZeroTask, Some(IdsExhausted), s)
      else
        var id := s.nextId;
        var advanced := s.(nextId := s.nextId + 1);
        if id in s.rows then Insertion(ZeroTask, Some(DuplicateKey), advanced)
        else
          var row := tsk.(id := id);
          Insertion(MapModelToDomain(row), None, advanced.(rows := s.rows[id := row]))
  }

  /** The user's live tasks: exactly the rows with that `user_id` and no
      `deleted_date`, each once, in id order. Only a driver failure is an error. */
  function GetByUserId(s: Store, u: u64, fault: bool): (r: Fallible<seq<Task>, DbError>)
    requires Valid(s)
    ensures r.Failed() <==> fault
    ensures r.Failed() ==> r.value == []
    ensures forall i :: 0 <= i < |r.value| ==>
              && r.value[i].userId == u && r.value[i].deletedDate.None?
              && r.value[i].id in s.rows
              && r.value[i] == MapModelToDomain(s.rows[r.value[i].id])
    ensures !fault ==> forall k :: k in s.rows && s.rows[k].userId == u && s.rows[k].deletedDate.None?
                                   ==> MapModelToDomain(s.rows[k]) in r.value
    ensures forall i, j :: 0 <= i < j < |r.value| ==> r.value[i].id < r.value[j].id
  {
    if fault then Fallible([], Some(DriverFailure))
    else
      var found := Find(s, Cond(None, Some(u), true));
      var res := MapModelToDomainCollection(found);
      assert forall k :: k in s.rows && Matches(Cond(None, Some(u), true), s.rows[k])
                         ==> MapModelToDomain(s.rows[k]) in res by {
        forall k | k in s.rows && Matches(Cond(None, Some(u), true), s.rows[k])
          ensures MapModelToDomain(s.rows[k]) in res
        {
          var i :| 0 <= i < |found| && found[i] == s.rows[k];
          assert res[i] == MapModelToDomain(s.rows[k]);
        }
      }
      Fallible(res, None)
  }

  /** The live row with that id, or the zero task and an error when there is none. */
  function GetByID(s: Store, id: u64, fault: bool): (r: Fallible<Task, DbError>)
    requires Valid(s)
    ensures !r.Failed() <==> !fault && id in s.rows && s.rows[id].deletedDate.None?
    ensures !r.Failed() ==> r.value == MapModelToDomain(s.rows[id])
    ensures r.Failed() ==> r.value == ZeroTask
    ensures !fault && r.Failed() ==> r.err == Some(NoMoreRows)
  {
    if fault then Fallible(ZeroTask, Some(DriverFailure))
    else
      var found := Find(s, Cond(Some(id), None, true));
      if |found| == 0 then Fallible(ZeroTask, Some(NoMoreRows))
      else Fallible(MapModelToDomain(found[0]), None)
  }

  /** Deletes the row with that id, soft-deleted or not; deleting nothing is no error. */
  function DeleteByID(s: Store, id: u64, fault: bool): (r: Mutation)
    requires Valid(s)
    ensures Valid(r.store)
    ensures r.err.Some? <==> fault
    ensures fault ==> r.store == s
    ensures !fault ==> r.store == s.(rows := s.rows - {id})
  {
    if fault then Mutation(Some(DriverFailure), s)
    else
      var rows := DeleteWhere(s.rows, Cond(Some(id), None, false));
      assert rows == s.rows - {id};
      Mutation(None, s.(rows := rows))
  }

  /** Sets the status of the row with that id, soft-deleted or not, without touching
      its update date; no row matching is no error. */
  function UpdateStatus(s: Store, id: u64, st: TaskStatus, fault: bool): (r: Mutation)
    requires Valid(s)
    ensures Valid(r.store)
    ensures r.err.Some? <==> fault
    ensures fault ==> r.store == s
    ensures !fault ==> && r.store.nextId == s.nextId
                       && r.store.rows.Keys == s.rows.Keys
                       && (id in s.rows ==> r.store.rows[id] == s.rows[id].(status := st))
                       && (forall k :: k in s.rows && k != id ==> r.store.rows[k] == s.rows[k])
  {
    if fault then Mutation(Some(DriverFailure), s)
    else Mutation(None, s.(rows := UpdateStatusWhere(s.rows, Cond(Some(id), None, false), st)))
  }
}
