/** The HTTP handlers of the task resource. Each handler is a pure mapping from
    the path id, the decoded body, the authenticated user and the store to an HTTP
    status, a payload and the new store. The service layer forwards each call to
    the repository unchanged, so the handlers call the repository directly. */
module TaskController {
  import opened Basics
  import opened Domain
  import Requests
  import Repo = TaskRepository

  datatype HttpStatus = Success | Created | BadRequest | InternalServerError

  /** Why a request was refused. */
  datatype Failure =
    | MalformedId
    | MalformedBody
    | IllegalStatus(status: TaskStatus)
    | Storage(error: Repo.DbError)

  /** The fixed confirmation messages of delete and status change. */
  datatype Notice = TaskDeleted | StatusChanged

  datatype Payload =
    | OneTask(task: Task)
    | TaskList(tasks: seq<Task>)
    | Message(notice: Notice)
    | Error(failure: Failure)

  datatype Exchange = Exchange(status: HttpStatus, payload: Payload, store: Repo.Store)

  // ----- Status whitelist -----------------------------------------------------

  /** A status is legal exactly when it is one of the three literals. */
  function IsValidTaskStatus(status: TaskStatus): (ok: bool)
    ensures ok <==> status in LegalStatuses
  {
    match status
    case "NEW" => true
    case "IN_PROGRESS" => true
    case "DONE" => true
    case _ => false
  }

  // ----- Base-10 uint64 parsing of the path id ---------------------------------

  predicate IsDigit(c: char)
  {
    '0' <= c <= '9'
  }

  predicate AllDigits(s: string)
  {
    forall i :: 0 <= i < |s| ==> IsDigit(s[i])
  }

  function DigitValue(c: char): nat
    requires IsDigit(c)
  {
    (c as int) - ('0' as int)
  }

  /** The number a string of decimal digits denotes. */
  function DecimalValue(s: string): nat
    requires AllDigits(s)
  {
    if s == [] then 0 else 10 * DecimalValue(s[..|s| - 1]) + DigitValue(s[|s| - 1])
  }

  /** `strconv.ParseUint(s, 10, 64)` as a value: a non-empty string of digits
      (leading zeros allowed, no sign, no separators) whose value fits in 64 bits. */
  function ParseUint64(s: string): Option<u64>
  {
    if |s| > 0 && AllDigits(s) && DecimalValue(s) <= MaxU64 then Some(DecimalValue(s)) else None
  }

  /** The two error kinds of `strconv.ParseUint`. */
  datatype NumError = ErrSyntax | ErrRange

  /** A digit prefix never denotes more than the whole digit string. */
  lemma {:induction false} PrefixValueAtMost(s: string, k: nat)
    requires AllDigits(s) && k <= |s|
    ensures DecimalValue(s[..k]) <= DecimalValue(s)
    decreases |s|
  {
    if k < |s| {
      var init := s[..|s| - 1];
      assert init[..k] == s[..k];
      PrefixValueAtMost(init, k);
    } else {
      assert s[..k] == s;
    }
  }

  /** The digit loop of `strconv.ParseUint` for base 10 and 64 bits: a syntax error
      (value 0) on the empty string or the first non-digit, a range error (value
      2^64-1) as soon as the accumulated value would leave 64 bits. It agrees with
      `ParseUint64` on every input. */
  method ParseUint(s: string) returns (n: u64, err: Option<NumError>)
    ensures err.None? <==> ParseUint64(s).Some?
    ensures err.None? ==> n == ParseUint64(s).value
    ensures err == Some(ErrSyntax) ==> n == 0 && !(|s| > 0 && AllDigits(s))
    ensures err == Some(ErrRange) ==> n == MaxU64
    ensures err == Some(ErrRange) ==>
              exists k :: 0 < k <= |s| && AllDigits(s[..k]) && DecimalValue(s[..k]) > MaxU64
  {
    if |s| == 0 {
      return 0, Some(ErrSyntax);
    }
    var cutoff := MaxU64 / 10 + 1;
    var acc: u64 := 0;
    var i := 0;
    while i < |s|
      invariant 0 <= i <= |s|
      invariant AllDigits(s[..i])
      invariant acc == DecimalValue(s[..i])
    {
      var c := s[i];
      if !IsDigit(c) {
        return 0, Some(ErrSyntax);
      }
      var d := DigitValue(c);
      assert s[..i + 1][..i] == s[..i];
      assert AllDigits(s[..i + 1]);
      assert DecimalValue(s[..i + 1]) == 10 * acc + d;
      if acc >= cutoff {
        // the next value would exceed 64 bits, whatever follows
        assert DecimalValue(s[..i + 1]) > MaxU64;
        if AllDigits(s) {
          PrefixValueAtMost(s, i + 1);
        }
        return MaxU64, Some(ErrRange);
      }
      var m := acc * 10;
      var sum := (m + d) % 0x1_0000_0000_0000_0000;
      if sum < m || sum > MaxU64 {
        assert DecimalValue(s[..i + 1]) > MaxU64;
        if AllDigits(s) {
          PrefixValueAtMost(s, i + 1);
        }
        return MaxU64, Some(ErrRange);
      }
      acc := sum;
      i := i + 1;
    }
    assert s[..i] == s;
    return acc, None;
  }

  /** `strconv.FormatUint(n, 10)`: the decimal rendering of a number. */
  function FormatUint(n: nat): (s: string)
    ensures |s| > 0 && AllDigits(s)
    decreases n
  {
    if n < 10 then [('0' as int + n) as char]
    else FormatUint(n / 10) + [('0' as int + n % 10) as char]
  }

  /** Every 64-bit id rendered in decimal parses back to itself. */
  lemma {:induction false} FormatThenParse(n: u64)
    ensures ParseUint64(FormatUint(n)) == Some(n)
  {
    DecimalOfFormat(n);
  }

  lemma {:induction false} DecimalOfFormat(n: nat)
    ensures DecimalValue(FormatUint(n)) == n
    decreases n
  {
    var s := FormatUint(n);
    if n >= 10 {
      DecimalOfFormat(n / 10);
      assert s[..|s| - 1] == FormatUint(n / 10);
    }
  }

  // ----- Handlers ---------------------------------------------------------------

  /** `POST /tasks`. A rejected body is a 400 before the store is touched; otherwise
      the task is owned by the caller and starts as `NEW` whatever the body said,
      and a store error is a 500. */
  function Save(body: Body<Requests.TaskRequest>, user: User, s: Repo.Store, now: Time, fault: bool)
    : (x: Exchange)
    requires Repo.Valid(s)
    ensures Repo.Valid(x.store)
    ensures body.Rejected? ==> x == Exchange(BadRequest, Error(MalformedBody), s)
    ensures body.Accepted? ==> x.status in {Created, InternalServerError}
    ensures body.Accepted? && fault ==> x.status == InternalServerError && x.store == s
    ensures x.status == InternalServerError ==> x.payload.Error? && x.store.rows == s.rows
    ensures x.status == Created <==>
              body.Accepted? && !fault && s.nextId <= MaxU64 && s.nextId !in s.rows
    ensures x.status == Created ==>
              && x.payload.OneTask?
              && var t := x.payload.task;
              && t.id == s.nextId && t.id !in s.rows
              && t.userId == user.id && t.status == New
              && t.title == body.value.title && t.description == body.value.description
              && (t.deadline.None? <==> body.value.deadline == 0)
              && (t.deadline.Some? ==> t.deadline.value == body.value.deadline)
              && t.createdDate == now && t.updatedDate == now && t.deletedDate.None?
              && x.store.rows == s.rows[t.id := Repo.MapDomainToModel(t)]
              && x.store.nextId == s.nextId + 1
  {
    match body
    case Rejected => Exchange(BadRequest, Error(MalformedBody), s)
    case Accepted(request) =>
      var task := Requests.ToDomainModel(request).value.(userId := user.id, status := New);
      var saved := Repo.Save(s, task, now, fault);
      if saved.err.Some? then Exchange(InternalServerError, Error(Storage(saved.err.value)), saved.store)
      else Exchange(Created, OneTask(saved.task), saved.store)
  }

  /** `GET /tasks`: the caller's live tasks with 200, or 500 on a store error.
      The store never changes. */
  function GetForUser(user: User, s: Repo.Store, fault: bool): (x: Exchange)
    requires Repo.Valid(s)
    ensures x.store == s
    ensures x.status == InternalServerError <==> fault
    ensures x.status == InternalServerError ==> x.payload.Error?
    ensures !fault ==> x.status == Success && x.payload.TaskList?
    ensures x.payload.TaskList? ==>
              forall i, j :: 0 <= i < j < |x.payload.tasks| ==> x.payload.tasks[i].id != x.payload.tasks[j].id
    ensures x.payload.TaskList? ==>
              && (forall t :: t in x.payload.tasks ==>
                    t.userId == user.id && t.deletedDate.None? && t.id in s.rows
                    && Repo.MapDomainToModel(t) == s.rows[t.id])
              && (forall k :: k in s.rows && s.rows[k].userId == user.id && s.rows[k].deletedDate.None?
                    ==> Repo.MapModelToDomain(s.rows[k]) in x.payload.tasks)
  {
    var tasks := Repo.GetByUserId(s, user.id, fault);
    if tasks.Failed() then Exchange(InternalServerError, Error(Storage(tasks.err.value)), s)
    else Exchange(Success, TaskList(tasks.value), s)
  }

  /** `GET /tasks/{id}`: 400 on an id that is not a base-10 uint64, 200 with the live
      task of that id, 500 otherwise (a missing task included). The store never changes. */
  function GetByID(idParam: string, s: Repo.Store, fault: bool): (x: Exchange)
    requires Repo.Valid(s)
    ensures x.store == s
    ensures ParseUint64(idParam).None? ==> x.status == BadRequest && x.payload == Error(MalformedId)
    ensures ParseUint64(idParam).Some? ==> x.status in {Success, InternalServerError}
    ensures x.status == InternalServerError ==> x.payload.Error?
    ensures x.status == Success <==>
              && ParseUint64(idParam).Some? && !fault
              && var id := ParseUint64(idParam).value;
              && id in s.rows && s.rows[id].deletedDate.None?
    ensures x.status == Success ==>
              x.payload == OneTask(Repo.MapModelToDomain(s.rows[ParseUint64(idParam).value]))
  {
    match ParseUint64(idParam)
    case None => Exchange(BadRequest, Error(MalformedId), s)
    case Some(id) =>
      var found := Repo.GetByID(s, id, fault);
      if found.Failed() then Exchange(InternalServerError, Error(Storage(found.err.value)), s)
      else Exchange(Success, OneTask(found.value), s)
  }

  /** `DELETE /tasks/{id}`: 400 on a malformed id with the store untouched, 500 on a
      store error, otherwise 200 with the row of that id gone (whoever owns it,
      soft-deleted or not, present or not). */
  function DeleteByID(idParam: string, s: Repo.Store, fault: bool): (x: Exchange)
    requires Repo.Valid(s)
    ensures Repo.Valid(x.store)
    ensures ParseUint64(idParam).None? ==> x == Exchange(BadRequest, Error(MalformedId), s)
    ensures ParseUint64(idParam).Some? && fault ==>
              x.status == InternalServerError && x.payload.Error? && x.store == s
    ensures ParseUint64(idParam).Some? && !fault ==>
              && x == Exchange(Success, Message(TaskDeleted), x.store)
              && x.store == s.(rows := s.rows - {ParseUint64(idParam).value})
  {
    match ParseUint64(idParam)
    case None => Exchange(BadRequest, Error(MalformedId), s)
    case Some(id) =>
      var deleted := Repo.DeleteByID(s, id, fault);
      if deleted.err.Some? then Exchange(InternalServerError, Error(Storage(deleted.err.value)), deleted.store)
      else Exchange(Success, Message(TaskDeleted), deleted.store)
  }

  /** `PATCH /tasks/{id}/status`: the id, then the body, then the whitelist are
      checked, each refusal a 400 with the store untouched; then a store error is a
      500 and success a 200 with only that row's status changed. */
  function UpdateStatus(idParam: string, body: Body<TaskStatus>, s: Repo.Store, fault: bool): (x: Exchange)
    requires Repo.Valid(s)
    ensures Repo.Valid(x.store)
    ensures ParseUint64(idParam).None? ==> x == Exchange(BadRequest, Error(MalformedId), s)
    ensures ParseUint64(idParam).Some? && body.Rejected? ==> x == Exchange(BadRequest, Error(MalformedBody), s)
    ensures ParseUint64(idParam).Some? && body.Accepted? && body.value !in LegalStatuses ==>
              x == Exchange(BadRequest, Error(IllegalStatus(body.value)), s)
    ensures x.status == BadRequest || fault ==> x.store == s
    ensures ParseUint64(idParam).Some? && body.Accepted? && body.value in LegalStatuses && fault ==>
              x.status == InternalServerError && x.payload.Error? && x.store == s
    ensures x.status == Success <==>
              ParseUint64(idParam).Some? && body.Accepted? && body.value in LegalStatuses && !fault
    ensures x.status == Success ==>
              && x.payload == Message(StatusChanged)
              && var id := ParseUint64(idParam).value;
              && x.store.nextId == s.nextId
              && x.store.rows.Keys == s.rows.Keys
              && (id in s.rows ==> x.store.rows[id] == s.rows[id].(status := body.value))
              && (forall k :: k in s.rows && k != id ==> x.store.rows[k] == s.rows[k])
  {
    match ParseUint64(idParam)
    case None => Exchange(BadRequest, Error(MalformedId), s)
    case Some(id) =>
      match body
      case Rejected => Exchange(BadRequest, Error(MalformedBody), s)
      case Accepted(status) =>
        if !IsValidTaskStatus(status) then Exchange(BadRequest, Error(IllegalStatus(status)), s)
        else
          var updated := Repo.UpdateStatus(s, id, status, fault);
          if updated.err.Some? then Exchange(InternalServerError, Error(Storage(updated.err.value)), updated.store)
          else Exchange(Success, Message(StatusChanged), updated.store)
  }
}
