/** Properties that span several requests: what a client observes when it follows
    one handler with another on the store the first one left behind. */
module TaskScenarios {
  import opened Basics
  import opened Domain
  import Requests
  import Repo = TaskRepository
  import opened TaskController

  /** A soft-deleted row is invisible to both reads, by id and by owner. */
  lemma SoftDeletedInvisible(s: Repo.Store, id: u64, fault: bool)
    requires Repo.Valid(s)
    requires id in s.rows && s.rows[id].deletedDate.Some?
    ensures GetByID(FormatUint(id), s, fault).status == InternalServerError
    ensures var listed := GetForUser(User(s.rows[id].userId), s, fault);
            listed.payload.TaskList? ==> forall t :: t in listed.payload.tasks ==> t.id != id
  {
    FormatThenParse(id);
    var listed := GetForUser(User(s.rows[id].userId), s, fault);
    if listed.payload.TaskList? {
      forall t | t in listed.payload.tasks
        ensures t.id != id
      {
        assert Repo.MapDomainToModel(t).deletedDate == t.deletedDate;
      }
    }
  }

  /** Delete does not honour the soft-delete mark: a soft-deleted row is removed. */
  lemma DeleteReachesSoftDeleted(s: Repo.Store, id: u64)
    requires Repo.Valid(s)
    requires id in s.rows && s.rows[id].deletedDate.Some?
    ensures id !in DeleteByID(FormatUint(id), s, false).store.rows
  {
    FormatThenParse(id);
  }

  /** Delete and status change take no caller: any task is reachable by its id,
      whoever owns it. */
  lemma NoOwnershipCheck(s: Repo.Store, id: u64, status: TaskStatus)
    requires Repo.Valid(s)
    requires id in s.rows && status in LegalStatuses
    ensures UpdateStatus(FormatUint(id), Accepted(status), s, false).store.rows[id].status == status
    ensures id !in DeleteByID(FormatUint(id), s, false).store.rows
  {
    FormatThenParse(id);
  }

  /** A client that reads the id from a 201 and asks for `/tasks/{id}` receives
      the task it was sent. */
  lemma CreateThenGet(body: Requests.TaskRequest, user: User, s: Repo.Store, now: Time)
    requires Repo.Valid(s)
    requires s.nextId <= MaxU64 && s.nextId !in s.rows
    ensures var created := Save(Accepted(body), user, s, now, false);
            && created.status == Created
            && var fetched := GetByID(FormatUint(created.payload.task.id), created.store, false);
            && fetched.status == Success
            && fetched.payload == created.payload
  {
    var created := Save(Accepted(body), user, s, now, false);
    FormatThenParse(created.payload.task.id);
  }

  /** After a successful status change of a live task, fetching it shows the new status. */
  lemma UpdateThenGet(s: Repo.Store, id: u64, status: TaskStatus)
    requires Repo.Valid(s)
    requires id in s.rows && s.rows[id].deletedDate.None?
    requires status in LegalStatuses
    ensures var updated := UpdateStatus(FormatUint(id), Accepted(status), s, false);
            && updated.status == Success
            && var fetched := GetByID(FormatUint(id), updated.store, false);
            && fetched.status == Success
            && fetched.payload.task.status == status
  {
    FormatThenParse(id);
  }

  /** A status outside the whitelist is a 400 and no stored status changes. */
  lemma IllegalStatusLeavesStore(s: Repo.Store, id: u64, status: TaskStatus, fault: bool)
    requires Repo.Valid(s)
    requires status !in LegalStatuses
    ensures UpdateStatus(FormatUint(id), Accepted(status), s, fault)
              == Exchange(BadRequest, Error(IllegalStatus(status)), s)
  {
    FormatThenParse(id);
  }

  /** After a successful delete, fetching the same id is an error. */
  lemma DeleteThenGet(s: Repo.Store, id: u64)
    requires Repo.Valid(s)
    ensures var deleted := DeleteByID(FormatUint(id), s, false);
            && deleted.status == Success
            && GetByID(FormatUint(id), deleted.store, false).status == InternalServerError
  {
    FormatThenParse(id);
  }

  /** Creating with deadline 0 as user 7 answers 201 with a `NEW` task owned by
      user 7 and no deadline. */
  lemma CreateWithoutDeadline(s: Repo.Store, now: Time)
    requires Repo.Valid(s)
    requires s.nextId <= MaxU64 && s.nextId !in s.rows
    ensures var x := Save(Accepted(Requests.TaskRequest("Write spec", "", 0)), User(7), s, now, false);
            && x.status == Created
            && x.payload.task.status == New
            && x.payload.task.userId == 7
            && x.payload.task.deadline.None?
  {
  }
}
